# AndroidLocalSdkProvider, modelled in Dafny

Robolectric asks its SDK provider for the catalogue of Android SDKs it can
run tests against: a `TreeMap<Integer, Sdk>` from API level to SDK. This
provider finds the android-all jar that the local Android build produced,
reads the release descriptor embedded in it and installs a `ProvidedJarSdk`
for that release at its API level. The intended rule, which the model
states and proves, is the supersession rule. Every entry at or above that
level is removed first, so the locally built jar wins over everything the
catalogue assumed was as new or newer. The code as written falls short of
it, as noted below. A missing release
descriptor, an unreadable jar or an unknown JDK version aborts the pass, and
the catalogue is left as it was.

Along the way, `getJdkVersion` derives the host JDK's major version from the
`java.version` property. It splits the property on dots. It takes the second
part in the legacy "1.x" scheme and the first part otherwise. It parses that
part as a Java `int`.

Modules:

- `Wrappers`: Option, Result, Outcome.
- `JavaInteger`: Java's `int` range, `Integer.parseInt` and, as its inverse,
  `Integer.toString`.
- `JavaString`: `String.split` with one literal separator and limit 0:
  trailing empty parts dropped, and `""` gives `[""]`.
- `JdkVersion`: `getJdkVersion` as `ParseMajor`.
- `Sdks`: the `Sdk` values, with `ProvidedJarSdk` and its constructor.
- `SdkCatalog`: the catalogue as a class over a `map` (`SdkMap`), the
  supersession rule as a function (`Superseded`), and the in-place merge loop
  (`Supersede`).
- `LocalSdkProvider`: `findTargetJar`, the pass as a function (`Populated`),
  and the in-place pass (`PopulateSdks`).

Inputs the program reads from its environment are parameters:

- `javaVersion` is the value of the `java.version` property, with None for null.
- `resolveJar` is the default jar-path lookup of the placeholder SDK.
- `readRelease` stands for opening the jar and reading its release descriptor.

Behaviour of the code worth noting:

- A property made only of dots, such as ".", splits into no parts at all.
  `parts[0]` then throws an index error, which the NumberFormatException
  handler does not catch. It is a distinct error here, `NoComponent`.
- Nothing checks that API levels are non-negative. Keys are any Java `int`.
- The jar file is opened and never closed.
- The removal at lines 65-68 deletes keys from the `TreeMap` while a stream
  over its key set is still running. `TreeMap.KeySpliterator.forEachRemaining`
  compares the map's modification count once the traversal ends, and every
  removal changes that count. So
  every pass that removes at least one key then throws
  `ConcurrentModificationException`, after some keys have already gone. The
  `put` at line 69 and the hand-over at line 84 then never run. As written,
  the pass completes only when every existing key is below the release
  level. A second run, as in `PopulatedIdempotent`, throws too when the
  release's own key is present. The model states the intended outcome
  instead.

## Model

| member | source | states |
|---|---|---|
| `JavaInteger.ParseInt` | plugins/src/main/java/org/robolectric/android/plugins/AndroidLocalSdkProvider.java:48-49 | a string `Integer.parseInt` accepts is a digit or a sign followed only by digits, and a negative result comes from a leading '-'. `ParseIntNumeral` gives the result for every signed or unsigned digit string. `ParseIntRejectsNonDigit` and `ParseIntRejectsNoDigits` cover every other input |
| `JavaInteger.ParseIntNumeral` | plugins/src/main/java/org/robolectric/android/plugins/AndroidLocalSdkProvider.java:48-49 | any non-empty digit string, bare or after '+' or '-', is accepted exactly when its signed value fits in an int, and then with that value. Leading zeros are included |
| `JavaInteger.DigitsValueLeadingZeros` | plugins/src/main/java/org/robolectric/android/plugins/AndroidLocalSdkProvider.java:48 | leading zeros do not change the value of a digit string |
| `JavaInteger.ParseIntLeadingZeros` | plugins/src/main/java/org/robolectric/android/plugins/AndroidLocalSdkProvider.java:48-49 | a zero-padded numeral, bare, after '+' or after '-', gives the numeral's value when it fits in an int and fails otherwise: "08" and "+08" give 8, "-007" gives -7, and "02147483648" fails |
| `JavaInteger.ParseIntToString` | plugins/src/main/java/org/robolectric/android/plugins/AndroidLocalSdkProvider.java:47-51 | `Integer.parseInt` reads back every int's decimal numeral as that int, and rejects a numeral outside the int range |
| `JavaInteger.ToStringInjective` | plugins/src/main/java/org/robolectric/android/plugins/AndroidLocalSdkProvider.java:44 | distinct ints have distinct canonical numerals, so the numeral of an int other than 1 is not "1" and the check at line 44 takes the modern branch for it (used by `ParseMajorModern`) |
| `JavaInteger.ParseIntRejectsNonDigit` | plugins/src/main/java/org/robolectric/android/plugins/AndroidLocalSdkProvider.java:47-51 | a character that is neither a digit nor a leading sign makes the parse fail |
| `JavaInteger.ParseIntRejectsNoDigits` | plugins/src/main/java/org/robolectric/android/plugins/AndroidLocalSdkProvider.java:47-51 | the empty string and a lone sign are not numbers |
| `JavaInteger.ParseIntPlusSign` | plugins/src/main/java/org/robolectric/android/plugins/AndroidLocalSdkProvider.java:48 | a leading '+' is accepted and does not change the value |
| `JavaString.SplitAll` | plugins/src/main/java/org/robolectric/android/plugins/AndroidLocalSdkProvider.java:42 | the raw split has at least one piece and no piece holds the separator |
| `JavaString.DropTrailingEmpty` | plugins/src/main/java/org/robolectric/android/plugins/AndroidLocalSdkProvider.java:42 | the kept pieces are a prefix; every dropped piece is empty; the last kept piece is not |
| `JavaString.Split` | plugins/src/main/java/org/robolectric/android/plugins/AndroidLocalSdkProvider.java:42 | `""` splits into `[""]`; any other string into the raw pieces with trailing empty ones dropped |
| `JavaString.JoinSplitAll` | plugins/src/main/java/org/robolectric/android/plugins/AndroidLocalSdkProvider.java:42 | joining the raw pieces with the separator gives back the string |
| `JavaString.SplitAllJoin` | plugins/src/main/java/org/robolectric/android/plugins/AndroidLocalSdkProvider.java:42 | splitting joined separator-free pieces gives back the pieces |
| `JavaString.SplitAllCons` | plugins/src/main/java/org/robolectric/android/plugins/AndroidLocalSdkProvider.java:42 | a separator-free prefix followed by a separator splits off as the first piece |
| `JavaString.SplitAllNoSeparator` | plugins/src/main/java/org/robolectric/android/plugins/AndroidLocalSdkProvider.java:42 | a string without the separator is its own single piece |
| `JavaString.SplitAllOnlySeparators` | plugins/src/main/java/org/robolectric/android/plugins/AndroidLocalSdkProvider.java:42 | n separators alone split into n + 1 empty pieces |
| `JavaString.SplitKeepsUpToNonEmpty` | plugins/src/main/java/org/robolectric/android/plugins/AndroidLocalSdkProvider.java:42-44 | every piece up to a non-empty one survives the dropping of trailing empties |
| `JavaString.SplitOnlySeparators` | plugins/src/main/java/org/robolectric/android/plugins/AndroidLocalSdkProvider.java:42-43 | a non-empty string of separators alone splits into no pieces at all |
| `JavaString.SplitNoSeparator` | plugins/src/main/java/org/robolectric/android/plugins/AndroidLocalSdkProvider.java:42 | a non-empty separator-free string splits into itself alone |
| `JdkVersion.ParseMajor` | plugins/src/main/java/org/robolectric/android/plugins/AndroidLocalSdkProvider.java:39-54 | `getJdkVersion` fails with `PropertyMissing` exactly for a null property, and with `NoComponent` exactly when the split has no parts. The chosen part (lines 43-46: the second when the first is "1" and a second exists, otherwise the first) gives a success with its value exactly when parseInt accepts it. Otherwise the error is `NotAnInt` naming that part. The lemmas below give its result for the modern, legacy and failing forms |
| `JdkVersion.ParseMajorModernPart` | plugins/src/main/java/org/robolectric/android/plugins/AndroidLocalSdkProvider.java:42-48 | any dot-free first part other than "1" that parseInt accepts, followed by nothing or by a dot and anything, gives that part's value |
| `JdkVersion.ParseMajorLegacyPart` | plugins/src/main/java/org/robolectric/android/plugins/AndroidLocalSdkProvider.java:42-48 | "1." then any dot-free part that parseInt accepts, followed by nothing or by a dot and anything, gives that part's value |
| `JdkVersion.ParseMajorModern` | plugins/src/main/java/org/robolectric/android/plugins/AndroidLocalSdkProvider.java:42-48 | a numeral other than 1, followed by nothing or by a dot and anything, gives that number |
| `JdkVersion.ParseMajorLegacy` | plugins/src/main/java/org/robolectric/android/plugins/AndroidLocalSdkProvider.java:42-48 | "1." then a numeral, followed by nothing or by a dot and anything, gives the second number |
| `JdkVersion.ParseMajorOne` | plugins/src/main/java/org/robolectric/android/plugins/AndroidLocalSdkProvider.java:42-48 | "1" followed only by dots gives 1, because no second part survives the split |
| `JdkVersion.ParseMajorNull` | plugins/src/main/java/org/robolectric/android/plugins/AndroidLocalSdkProvider.java:40-53 | a null property fails |
| `JdkVersion.ParseMajorEmpty` | plugins/src/main/java/org/robolectric/android/plugins/AndroidLocalSdkProvider.java:42-50 | the empty property fails as a malformed number "" |
| `JdkVersion.ParseMajorOnlyDots` | plugins/src/main/java/org/robolectric/android/plugins/AndroidLocalSdkProvider.java:42-43 | a property of dots alone fails because no part exists |
| `JdkVersion.ParseMajorLeadingDot` | plugins/src/main/java/org/robolectric/android/plugins/AndroidLocalSdkProvider.java:42-50 | a property starting with a dot fails on its empty first part |
| `JdkVersion.ParseMajorNonNumeric` | plugins/src/main/java/org/robolectric/android/plugins/AndroidLocalSdkProvider.java:44-50 | a chosen part holding a non-digit fails as a malformed number, naming that part |
| `JdkVersion.ParseMajorExampleLegacy` | plugins/src/main/java/org/robolectric/android/plugins/AndroidLocalSdkProvider.java:42-48 | "1.8.0_362" gives 8 |
| `JdkVersion.ParseMajorExampleLeadingZero` | plugins/src/main/java/org/robolectric/android/plugins/AndroidLocalSdkProvider.java:42-48 | "1.08" gives 8 |
| `JdkVersion.ParseMajorExampleModern` | plugins/src/main/java/org/robolectric/android/plugins/AndroidLocalSdkProvider.java:42-48 | "17.0.1" gives 17 |
| `JdkVersion.ParseMajorExampleOne` | plugins/src/main/java/org/robolectric/android/plugins/AndroidLocalSdkProvider.java:42-48 | "1" gives 1 |
| `JdkVersion.ParseMajorExampleDots` | plugins/src/main/java/org/robolectric/android/plugins/AndroidLocalSdkProvider.java:42-50 | ".5" fails on the empty part and "." fails for having no part |
| `Sdks.NewProvidedJarSdk` | plugins/src/main/java/org/robolectric/android/plugins/AndroidLocalSdkProvider.java:90-102 | construction fails exactly when the JDK version does; otherwise the SDK has the given level, version and code name, an empty revision and the host JDK version; `GetJarPath`, the `getJarPath` override of lines 100-102, returns the given path |
| `SdkCatalog.Superseded` | plugins/src/main/java/org/robolectric/android/plugins/AndroidLocalSdkProvider.java:65-69 | the new SDK sits at its level; no key above it remains; keys below it are present exactly when they were before, with the same SDK |
| `SdkCatalog.SupersededKeys` | plugins/src/main/java/org/robolectric/android/plugins/AndroidLocalSdkProvider.java:65-69 | the resulting key set is the old keys below the level plus the level |
| `SdkCatalog.SupersededUnique` | plugins/src/main/java/org/robolectric/android/plugins/AndroidLocalSdkProvider.java:65-69 | any catalogue with those four properties is the superseded one |
| `SdkCatalog.SupersededIdempotent` | plugins/src/main/java/org/robolectric/android/plugins/AndroidLocalSdkProvider.java:65-69 | installing the same release twice equals installing it once |
| `SdkCatalog.SupersededLowerWins` | plugins/src/main/java/org/robolectric/android/plugins/AndroidLocalSdkProvider.java:65-69 | a later install at a lower or equal level erases an earlier one completely: last detected wins |
| `SdkCatalog.SupersededScenarioMiddle` | plugins/src/main/java/org/robolectric/android/plugins/AndroidLocalSdkProvider.java:65-69 | {28, 29, 30} with a new 29 becomes {28, new 29} |
| `SdkCatalog.SupersededScenarioEmpty` | plugins/src/main/java/org/robolectric/android/plugins/AndroidLocalSdkProvider.java:65-69 | an empty catalogue with a new 34 becomes {34} |
| `SdkCatalog.SdkMap.constructor` | plugins/src/main/java/org/robolectric/android/plugins/AndroidLocalSdkProvider.java:56 | the map handed to the pass holds the given entries |
| `SdkCatalog.SdkMap.Remove` | plugins/src/main/java/org/robolectric/android/plugins/AndroidLocalSdkProvider.java:68 | removing a key deletes it and nothing else |
| `SdkCatalog.SdkMap.Put` | plugins/src/main/java/org/robolectric/android/plugins/AndroidLocalSdkProvider.java:69 | putting binds the key to the SDK, replacing any earlier one, and changes nothing else |
| `SdkCatalog.Supersede` | plugins/src/main/java/org/robolectric/android/plugins/AndroidLocalSdkProvider.java:65-69 | removing every key at or above the level one at a time and then putting the SDK leaves exactly the superseded catalogue |
| `LocalSdkProvider.FindTargetJarConsultsPlaceholderOnly` | plugins/src/main/java/org/robolectric/android/plugins/AndroidLocalSdkProvider.java:34-37 | `findTargetJar` consults the jar lookup only about the placeholder SDK (level 10000, "current", "r0", "UpsideDownCake", the host JDK version), and not at all when the JDK version is unknown. Its error mapping is stated by `PopulatedFailures` |
| `LocalSdkProvider.Populated` | plugins/src/main/java/org/robolectric/android/plugins/AndroidLocalSdkProvider.java:56-83 | a successful pass found the JDK version, the jar and a release in it, and its catalogue is the old one superseded by the `ProvidedJarSdk` for that release and jar; `PopulatedFailures` and `PopulatedSucceedsIff` give the failures |
| `LocalSdkProvider.PopulatedInstallsRelease` | plugins/src/main/java/org/robolectric/android/plugins/AndroidLocalSdkProvider.java:58-69 | when the JDK version, the jar and its release are found, the pass installs a `ProvidedJarSdk` for that release and that jar over the catalogue |
| `LocalSdkProvider.PopulatedFailures` | plugins/src/main/java/org/robolectric/android/plugins/AndroidLocalSdkProvider.java:34-83 | an unknown JDK version, a failed jar lookup, an unreadable jar and a missing release each abort with their own error, in that order |
| `LocalSdkProvider.PopulatedSucceedsIff` | plugins/src/main/java/org/robolectric/android/plugins/AndroidLocalSdkProvider.java:57-83 | the pass succeeds exactly when the JDK version, the jar location and a release descriptor are all found |
| `LocalSdkProvider.PopulatedIdempotent` | plugins/src/main/java/org/robolectric/android/plugins/AndroidLocalSdkProvider.java:57-83 | running the pass again on its own result gives the same catalogue |
| `LocalSdkProvider.PopulateSdks` | plugins/src/main/java/org/robolectric/android/plugins/AndroidLocalSdkProvider.java:56-83 | on failure the caller's map is untouched and the error is returned; on success the map is the superseded catalogue |

## Left out

- Locating the jar: the default jar-path lookup of the placeholder SDK (line 36) belongs to `DefaultSdk` and its dependency resolver, which are not part of this model. It is the parameter `resolveJar`.
- Opening the jar and reading its release (lines 60-61): `JarFile` and `AndroidVersionInitTools.computeReleaseVersion` are not part of this model. They are the parameter `readRelease`, with an IOException as an abstract `IoFailure`.
- Reading the `java.version` property (line 40) is the parameter `javaVersion`. The property is read once, so the two calls of `getJdkVersion` (lines 35 and 95) agree.
- `super.populateSdks(knownSdks)` (line 84): `DefaultSdkProvider` is not part of this model. `PopulateSdks` ends where the default provider takes over.
- Provider discovery through `@AutoService` and `@Priority` (lines 22-23), and the `synchronized` on `getJarPath` (line 100). Neither holds any logic.
- `SdkCatalog.Supersede`: it removes keys from a snapshot of the doomed set. So it does not model the `ConcurrentModificationException` that, as noted above, every pass removing at least one key throws (lines 65-68). It also does not model the partly emptied map left behind. It also removes in an arbitrary order rather than ascending; the result does not depend on the order.
- The `TreeMap`'s ordering is not modelled: the catalogue is a `map`. The code only compares keys and never walks them in order, except in the removal above.
- `JavaInteger.ParseInt`: it accepts only the ASCII digits '0' to '9'. Java's `Character.digit` also accepts the other Unicode decimal digits, such as fullwidth ones. The model rejects those.
- Exception messages and cause chaining (lines 50, 53, 71-73, 76-79, 82): each failure is a distinct error value instead.
- The jar file is never closed by the code. The model has no file handles, so it does not capture the leak.
