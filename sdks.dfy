/** The SDK entries a catalogue holds. */
module Sdks {
  import opened Wrappers
  import opened JavaInteger
  import opened JdkVersion

  type Path = string

  /** An SDK: its API level, Android version name, revision (build tag),
      code name and the JDK major version it is used with. A DefaultSdk finds
      its jar through the dependency resolver, which is not part of this
      model; a ProvidedJarSdk carries the path of the jar it was detected in. */
  datatype Sdk =
    | DefaultSdk(apiLevel: Int32, androidVersion: string, androidRevision: string,
                 codeName: string, jdkVersion: Int32)
    | ProvidedJarSdk(apiLevel: Int32, androidVersion: string, androidRevision: string,
                     codeName: string, jdkVersion: Int32, jarPath: Path)
  {
    /** `ProvidedJarSdk.getJarPath`: the path given at construction. */
    function GetJarPath(): Path
      requires ProvidedJarSdk?
    {
      jarPath
    }
  }

  /** `new ProvidedJarSdk(apiLevel, androidVersion, codeName, jarPath)`: the
      revision is always empty and the JDK version is read again, so the
      construction fails exactly when `getJdkVersion` does. */
  function NewProvidedJarSdk(apiLevel: Int32, androidVersion: string, codeName: string,
                             jarPath: Path, javaVersion: Option<string>): (r: Result<Sdk, JdkError>)
    ensures r.Failure? <==> ParseMajor(javaVersion).Failure?
    ensures r.Failure? ==> r.error == ParseMajor(javaVersion).error
    ensures r.Success? ==> r.value.ProvidedJarSdk? && r.value.GetJarPath() == jarPath
    ensures r.Success? ==> r.value.apiLevel == apiLevel && r.value.androidVersion == androidVersion
                           && r.value.androidRevision == "" && r.value.codeName == codeName
                           && r.value.jdkVersion == ParseMajor(javaVersion).value
  {
    match ParseMajor(javaVersion)
    case Failure(e) => Failure(e)
    case Success(jdk) => Success(ProvidedJarSdk(apiLevel, androidVersion, "", codeName, jdk, jarPath))
  }
}
