/** AndroidLocalSdkProvider: finds the android-all jar the local build
    produced, reads the release it was built for and installs it in the SDK
    catalogue over every entry at or above its API level. */
module LocalSdkProvider {
  import opened Wrappers
  import opened JavaInteger
  import opened JdkVersion
  import opened Sdks
  import opened SdkCatalog

  /** The release descriptor embedded in the jar: its API level and short
      code name. */
  datatype Release = Release(sdkInt: Int32, shortCode: string)

  /** An IOException from the file system or the jar reader. */
  datatype IoFailure = IoFailure(reason: string)

  /** Why a population pass aborts. */
  datatype PopulateError =
    | JdkVersionUnknown(jdkError: JdkError)      // getJdkVersion threw
    | DynamicConfigFailed(ioFailure: IoFailure)  // findTargetJar threw an IOException
    | JarUnreadable(ioFailure: IoFailure)        // opening or reading the jar threw an IOException
    | ReleaseNotFound                            // the jar holds no release descriptor

  /** The placeholder SDK whose default jar location names the locally built
      android-all jar. */
  function LocalBuiltSdk(jdk: Int32): Sdk {
    DefaultSdk(10000, "current", "r0", "UpsideDownCake", jdk)
  }

  /** `findTargetJar`: the JDK version is needed first; `resolveJar` stands
      for the default jar-path lookup of the placeholder SDK. */
  function FindTargetJar(javaVersion: Option<string>, resolveJar: Sdk -> Result<Path, IoFailure>)
    : Result<Path, PopulateError>
  {
    match ParseMajor(javaVersion)
    case Failure(e) => Failure(JdkVersionUnknown(e))
    case Success(jdk) =>
      match resolveJar(LocalBuiltSdk(jdk))
      case Failure(io) => Failure(DynamicConfigFailed(io))
      case Success(location) => Success(location)
  }

  /** findTargetJar asks the lookup about the placeholder SDK alone: two
      lookups that agree on it give the same outcome, and when the JDK
      version is unknown the lookup is not consulted at all. */
  lemma FindTargetJarConsultsPlaceholderOnly(javaVersion: Option<string>,
                                             resolveJar: Sdk -> Result<Path, IoFailure>,
                                             otherResolveJar: Sdk -> Result<Path, IoFailure>)
    ensures ParseMajor(javaVersion).Failure? ==>
              FindTargetJar(javaVersion, resolveJar) == FindTargetJar(javaVersion, otherResolveJar)
    ensures ParseMajor(javaVersion).Success?
            && resolveJar(LocalBuiltSdk(ParseMajor(javaVersion).value))
               == otherResolveJar(LocalBuiltSdk(ParseMajor(javaVersion).value)) ==>
              FindTargetJar(javaVersion, resolveJar) == FindTargetJar(javaVersion, otherResolveJar)
  {
  }

  /** The catalogue a population pass leaves behind, or why it aborts.
      `readRelease` stands for opening the jar at a path and reading its
      release descriptor (None when there is none). */
  function Populated(known: map<Int32, Sdk>, javaVersion: Option<string>,
                     resolveJar: Sdk -> Result<Path, IoFailure>,
                     readRelease: Path -> Result<Option<Release>, IoFailure>)
    : (r: Result<map<Int32, Sdk>, PopulateError>)
    ensures r.Success? ==>
              && ParseMajor(javaVersion).Success?
              && FindTargetJar(javaVersion, resolveJar).Success?
              && readRelease(FindTargetJar(javaVersion, resolveJar).value).Success?
              && readRelease(FindTargetJar(javaVersion, resolveJar).value).value.Some?
              && var location := FindTargetJar(javaVersion, resolveJar).value;
                 var release := readRelease(location).value.value;
                 && NewProvidedJarSdk(release.sdkInt, "current", release.shortCode, location, javaVersion).Success?
                 && r.value == Superseded(known, release.sdkInt,
                                          NewProvidedJarSdk(release.sdkInt, "current", release.shortCode,
                                                            location, javaVersion).value)
  {
    match FindTargetJar(javaVersion, resolveJar)
    case Failure(e) => Failure(e)
    case Success(location) =>
      match readRelease(location)
      case Failure(io) => Failure(JarUnreadable(io))
      case Success(None) => Failure(ReleaseNotFound)
      case Success(Some(release)) =>
        match NewProvidedJarSdk(release.sdkInt, "current", release.shortCode, location, javaVersion)
        case Failure(e) => Failure(JdkVersionUnknown(e))
        case Success(currentSdk) => Success(Superseded(known, release.sdkInt, currentSdk))
  }

  /** When every step succeeds, the jar's SDK is installed at its own level
      over everything at or above it. */
  lemma PopulatedInstallsRelease(known: map<Int32, Sdk>, javaVersion: Option<string>,
                                 resolveJar: Sdk -> Result<Path, IoFailure>,
                                 readRelease: Path -> Result<Option<Release>, IoFailure>,
                                 jdk: Int32, location: Path, release: Release)
    requires ParseMajor(javaVersion) == Success(jdk)
    requires resolveJar(LocalBuiltSdk(jdk)) == Success(location)
    requires readRelease(location) == Success(Some(release))
    ensures NewProvidedJarSdk(release.sdkInt, "current", release.shortCode, location, javaVersion).Success?
    ensures Populated(known, javaVersion, resolveJar, readRelease)
            == Success(Superseded(known, release.sdkInt,
                                  NewProvidedJarSdk(release.sdkInt, "current", release.shortCode,
                                                    location, javaVersion).value))
  {
  }

  /** Each step's failure aborts the pass with its own error, checked in the
      order the steps run. */
  lemma PopulatedFailures(known: map<Int32, Sdk>, javaVersion: Option<string>,
                          resolveJar: Sdk -> Result<Path, IoFailure>,
                          readRelease: Path -> Result<Option<Release>, IoFailure>)
    ensures ParseMajor(javaVersion).Failure? ==>
              Populated(known, javaVersion, resolveJar, readRelease)
              == Failure(JdkVersionUnknown(ParseMajor(javaVersion).error))
    ensures ParseMajor(javaVersion).Success? && resolveJar(LocalBuiltSdk(ParseMajor(javaVersion).value)).Failure? ==>
              Populated(known, javaVersion, resolveJar, readRelease)
              == Failure(DynamicConfigFailed(resolveJar(LocalBuiltSdk(ParseMajor(javaVersion).value)).error))
    ensures FindTargetJar(javaVersion, resolveJar).Success? && readRelease(FindTargetJar(javaVersion, resolveJar).value).Failure? ==>
              Populated(known, javaVersion, resolveJar, readRelease)
              == Failure(JarUnreadable(readRelease(FindTargetJar(javaVersion, resolveJar).value).error))
    ensures FindTargetJar(javaVersion, resolveJar).Success? && readRelease(FindTargetJar(javaVersion, resolveJar).value) == Success(None) ==>
              Populated(known, javaVersion, resolveJar, readRelease) == Failure(ReleaseNotFound)
  {
  }

  /** A pass succeeds exactly when the JDK version, the jar location and a
      release descriptor are all found. */
  lemma PopulatedSucceedsIff(known: map<Int32, Sdk>, javaVersion: Option<string>,
                             resolveJar: Sdk -> Result<Path, IoFailure>,
                             readRelease: Path -> Result<Option<Release>, IoFailure>)
    ensures Populated(known, javaVersion, resolveJar, readRelease).Success? <==>
              && ParseMajor(javaVersion).Success?
              && resolveJar(LocalBuiltSdk(ParseMajor(javaVersion).value)).Success?
              && readRelease(resolveJar(LocalBuiltSdk(ParseMajor(javaVersion).value)).value).Success?
              && readRelease(resolveJar(LocalBuiltSdk(ParseMajor(javaVersion).value)).value).value.Some?
  {
  }

  /** Running the pass again on its own result changes nothing. */
  lemma PopulatedIdempotent(known: map<Int32, Sdk>, javaVersion: Option<string>,
                            resolveJar: Sdk -> Result<Path, IoFailure>,
                            readRelease: Path -> Result<Option<Release>, IoFailure>,
                            jdk: Int32, location: Path, release: Release)
    requires ParseMajor(javaVersion) == Success(jdk)
    requires resolveJar(LocalBuiltSdk(jdk)) == Success(location)
    requires readRelease(location) == Success(Some(release))
    ensures Populated(known, javaVersion, resolveJar, readRelease).Success?
    ensures Populated(Populated(known, javaVersion, resolveJar, readRelease).value,
                      javaVersion, resolveJar, readRelease)
            == Populated(known, javaVersion, resolveJar, readRelease)
  {
    SupersededIdempotent(known, release.sdkInt,
                         NewProvidedJarSdk(release.sdkInt, "current", release.shortCode,
                                           location, javaVersion).value);
  }

  /** `populateSdks` up to the hand-over to the default provider: on any
      failure the caller's map is left as it was and the error is returned;
      on success the map holds exactly what Populated describes. */
  method PopulateSdks(known: SdkMap, javaVersion: Option<string>,
                      resolveJar: Sdk -> Result<Path, IoFailure>,
                      readRelease: Path -> Result<Option<Release>, IoFailure>)
    returns (outcome: Outcome<PopulateError>)
    modifies known
    ensures outcome.Pass? <==> Populated(old(known.entries), javaVersion, resolveJar, readRelease).Success?
    ensures outcome.Pass? ==>
              known.entries == Populated(old(known.entries), javaVersion, resolveJar, readRelease).value
    ensures outcome.Fail? ==>
              && outcome.error == Populated(old(known.entries), javaVersion, resolveJar, readRelease).error
              && known.entries == old(known.entries)
  {
    var location := FindTargetJar(javaVersion, resolveJar);
    if location.Failure? {
      return Fail(location.error);
    }
    var release := readRelease(location.value);
    if release.Failure? {
      return Fail(JarUnreadable(release.error));
    }
    if release.value.None? {
      return Fail(ReleaseNotFound);
    }
    var r := release.value.value;
    var currentSdk := NewProvidedJarSdk(r.sdkInt, "current", r.shortCode, location.value, javaVersion);
    match currentSdk
    case Failure(e) =>
      return Fail(JdkVersionUnknown(e));
    case Success(sdk) =>
      Supersede(known, r.sdkInt, sdk);
      outcome := Pass;
  }
}
