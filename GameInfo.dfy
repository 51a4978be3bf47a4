/**
 * The game description (`GameInfoBean`) and the built-in entries of `GameInfoConstant`: the
 * "no game" placeholder and the two Crosscore services. The external-storage root is a
 * parameter.
 */
module GameInfo {

  datatype Game = Game(
    gameName: string,
    serviceName: string,
    packageName: string,
    gamePath: string,
    modSavePath: string,
    antiHarmonyFile: string,
    antiHarmonyContent: string,
    gameFilePath: seq<string>,
    version: string,
    modType: seq<string>,
    isGameFileRepeat: bool,
    enableBackup: bool,
    tips: string)

  /** `NO_GAME`: every text empty, no game paths. */
  const NoGame := Game("", "", "", "", "", "", "", [], "", [], true, true, "")

  const CrosscorePackage := "com.megagame.crosscore"
  const CrosscoreBPackage := "com.megagame.crosscore.bilibili"

  /** The seven content kinds both Crosscore entries declare. */
  const CrosscoreModTypes := ["游戏模型", "登录页面", "角色语言", "皮肤语音", "背景音乐", "图册语音", "战斗音效"]

  function CrosscoreEntry(root: string, serviceName: string, pkg: string, bgms: string): Game
  {
    var data := root + "/Android/data/" + pkg + "/";
    Game("交错战线", serviceName, pkg, data, "crosscore/", data + "files/internation.txt", "1",
      [data + "files/Custom/", data + "files/videos/login/", data + "files/sounds/cv/",
       data + "files/sounds/cv/cv_skin/", data + bgms, data + "files/sounds/cv/picture/",
       data + "files/sounds/cv/fight/effect"],
      "", CrosscoreModTypes, false, true, "")
  }

  /** `CROSSCORE`: the official service. */
  function Crosscore(root: string): Game
  {
    CrosscoreEntry(root, "官服", CrosscorePackage, "files/sounds/cv/bgms/")
  }

  /** `CROSSCOREB`: the bilibili service, whose music directory sits one level higher. */
  function CrosscoreB(root: string): Game
  {
    CrosscoreEntry(root, "B服", CrosscoreBPackage, "files/sounds/bgms/")
  }

  /** `gameInfoList`: the three built-in entries in their fixed order. */
  function Defaults(root: string): (r: seq<Game>)
    ensures |r| == 3 && r[0] == NoGame
    ensures r[0].packageName != r[1].packageName && r[1].packageName != r[2].packageName
    ensures r[0].packageName != r[2].packageName
    ensures |r[1].gameFilePath| == |r[1].modType| && |r[2].gameFilePath| == |r[2].modType|
  {
    [NoGame, Crosscore(root), CrosscoreB(root)]
  }
}
