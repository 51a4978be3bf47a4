/**
 * The mod record of the domain layer (`domain.bean.ModBean`), which the use cases, the scan
 * service and the view models exchange. Its declaration is not part of this model; the fields
 * are the ones those files construct, copy and compare, with Kotlin's nullable fields as
 * `Option`s.
 */
module DomainMod {
  import opened Wrappers

  datatype Mod = Mod(
    id: int,
    name: string,
    version: Option<string>,
    description: Option<string>,
    author: Option<string>,
    date: int,
    path: string,
    virtualPaths: Option<string>,
    icon: Option<string>,
    images: seq<string>,
    modFiles: seq<string>,
    gameFilesPath: seq<string>,
    modConfig: Option<string>,
    isEncrypted: bool,
    password: string,
    readmePath: Option<string>,
    fileReadmePath: Option<string>,
    gamePackageName: string,
    modType: string,
    isEnable: bool,
    isZipFile: bool,
    modRelativePath: Option<string>)
}
