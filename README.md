# Test Butler service: locale parsing and the restore-flag lifecycle

Test Butler is an on-device helper service that runs beside automated UI tests
on Android. While tests run it disables animations and keeps rotation,
location mode and locale under control. When the run ends it puts the device
back as it found it. This project models the two parts of `ButlerService`
that hold logic:

- `locale_string.dfy` (module `LocaleString`) models `parseLocaleString`. The
  Java code matches a string in full against
  `([a-z0-9]{2,3})(-r?([A-Z0-9]{2,3})(-(\w+))?)?` and builds a `Locale` from
  groups 1, 3 and 5.
  - A match of that pattern is the datatype `LocaleMatch`. `Spelling` gives the
    text a match spans, and `FullMatch(s)` says some well-formed match spells `s`.
  - The parser is a hand-written scanner, `Scan`. It is proved sound and
    complete against `FullMatch`, and the match it finds is unique.
  - A locale is three strings, with "" for an absent country or variant, as in
    `java.util.Locale`.
- `butler.dfy` (module `Butler`) models the lifecycle: `onCreate`, the
  IPC setters, `onHandleIntent` and `onDestroy`, with the four restore flags.
  - The transitions are first stated on values: `Service`, `AfterCreate`,
    `HandleExtra`, `AfterIntent`, `AfterDestroy`, and `Run` for a whole run.
    The lemmas about a run are proved on these.
  - The class `ButlerService` holds the fields the Java class updates. Its
    methods are proved to perform exactly those transitions on a `Device`
    object, which stands for the platform's settings store.
  - `HandleIntent` visits the bundle's keys in an arbitrary order, as
    `Bundle.keySet()` does. Its loop invariant shows the result does not
    depend on that order.

`wrappers.dfy` holds the `Option` type that stands for Java's `null`.

In `ButlerService.java` only intent extras clear restore flags (lines 190,
197, 204, 212). The IPC setters (lines 70-91) never touch a flag. So a setting
changed over IPC is still put back at destroy (`Butler.RunRestoresUnseen`).

## Model

| member | source | states |
|---|---|---|
| `LocaleString.Scan` | test-butler-app/src/main/java/com/linkedin/android/testbutler/ButlerService.java:220-222 | Any match the scanner reports is well formed and spells exactly the input. This is a full match, not a prefix match. |
| `LocaleString.ScanComplete` | test-butler-app/src/main/java/com/linkedin/android/testbutler/ButlerService.java:220-222 | The scanner finds every well-formed match of the pattern. |
| `LocaleString.MatchUnambiguous` | test-butler-app/src/main/java/com/linkedin/android/testbutler/ButlerService.java:220-225 | Two well-formed matches that spell the same string are equal. So groups 1, 3 and 5 do not depend on the regex engine's backtracking. |
| `LocaleString.LocaleOfMatch` | test-butler-app/src/main/java/com/linkedin/android/testbutler/ButlerService.java:223-229 | For a full match, the group-to-locale conditional gives a locale, never null. That locale is valid, and formatting it gives back the matched text. |
| `LocaleString.LocaleOfGroups` | test-butler-app/src/main/java/com/linkedin/android/testbutler/ButlerService.java:226-229 | The result is null exactly when group 1 is null. Otherwise the language is group 1, the country is group 3 or empty, and the variant is group 5 only when group 3 is present, else empty. |
| `LocaleString.ParseLocaleString` | test-butler-app/src/main/java/com/linkedin/android/testbutler/ButlerService.java:219-232 | On success the language is 2-3 characters of `[a-z0-9]` and the country is empty or 2-3 characters of `[A-Z0-9]`. A variant is one or more `\w` characters and only appears with a country. The input is the locale written out as `l[-[r]c[-v]]`, and the `r` is not part of the country. |
| `LocaleString.ParseSucceedsIffFullMatch` | test-butler-app/src/main/java/com/linkedin/android/testbutler/ButlerService.java:220-231 | The result is non-null exactly when the whole string matches the pattern. A valid prefix followed by anything else gives null, and the null-language branch is never taken. |
| `LocaleString.ParseFormat` | test-butler-app/src/main/java/com/linkedin/android/testbutler/ButlerService.java:220-229 | Round trip for valid components: `l` gives (l), `l-c` and `l-rc` give (l, c), and `l-c-v` and `l-rc-v` give (l, c, v). |
| `LocaleString.RejectsForeignChar` | test-butler-app/src/main/java/com/linkedin/android/testbutler/ButlerService.java:220-231 | With `\w` read as ASCII, a string with any character outside `[a-zA-Z0-9_-]`, at any position, gives null. |
| `LocaleString.ParseExamples` | test-butler-app/src/main/java/com/linkedin/android/testbutler/ButlerService.java:219-232 | `en` gives (en) and `en-US` gives (en, US). |
| `LocaleString.RejectLanguageExamples` | test-butler-app/src/main/java/com/linkedin/android/testbutler/ButlerService.java:219-232 | The empty string and `english` give null. |
| `LocaleString.RejectCountryExample` | test-butler-app/src/main/java/com/linkedin/android/testbutler/ButlerService.java:219-232 | `en-us` gives null, because the country must be upper case. |
| `LocaleString.RejectVariantExample` | test-butler-app/src/main/java/com/linkedin/android/testbutler/ButlerService.java:219-232 | `en-US-` gives null, because a dash must be followed by a variant. |
| `Butler.AfterCreate` | test-butler-app/src/main/java/com/linkedin/android/testbutler/ButlerService.java:65-68 | After construction and `onCreate`, all four flags are set. |
| `Butler.HandleExtra` | test-butler-app/src/main/java/com/linkedin/android/testbutler/ButlerService.java:182-214 | A recognised key clears its own flag and no other flag. An unrecognised key changes nothing. The snapshot is never touched. |
| `Butler.WithLocationMode` | test-butler-app/src/main/java/com/linkedin/android/testbutler/ButlerService.java:77-80 | The IPC setter sets the location mode. Every other setting, the snapshot and all four flags stay as they were. |
| `Butler.WithRotation` | test-butler-app/src/main/java/com/linkedin/android/testbutler/ButlerService.java:82-85 | The IPC setter sets the rotation. Every other setting, the snapshot and all four flags stay as they were. |
| `Butler.WithSystemLocale` | test-butler-app/src/main/java/com/linkedin/android/testbutler/ButlerService.java:87-90 | The IPC setter sets the locale to (language, country, no variant). Every other setting, the snapshot and all four flags stay as they were. |
| `Butler.LocaleAfter` | test-butler-app/src/main/java/com/linkedin/android/testbutler/ButlerService.java:200-203 | An unparsable `system_locale` string leaves the current locale unchanged. A parsable one gives a valid locale whose written form is the string. |
| `Butler.AfterIntent` | test-butler-app/src/main/java/com/linkedin/android/testbutler/ButlerService.java:179-217 | Handling a bundle leaves the snapshot alone. Each flag ends cleared exactly when it was already clear or the bundle carries its key. `location_mode` and `user_rotation` are read with defaults -1 and 0. Animations end disabled exactly when `disable_animations` holds boolean true; false or a non-boolean value enables them. An unparsable `system_locale` leaves the locale unchanged, and a parsable one sets it to the parsed locale. A setting whose key is absent from the bundle keeps its value. |
| `Butler.IntentFlags` | test-butler-app/src/main/java/com/linkedin/android/testbutler/ButlerService.java:190-212 | Each restore flag ends cleared exactly when it was clear before or the bundle carries its own key; no key clears another key's flag. |
| `Butler.IntentSettings` | test-butler-app/src/main/java/com/linkedin/android/testbutler/ButlerService.java:182-215 | Each setting whose key is in the bundle takes the bundle's value (defaults -1 and 0, boolean true disables animations, the parsed locale or the old one when parsing fails); every setting whose key is absent keeps its value. |
| `Butler.AfterDestroy` | test-butler-app/src/main/java/com/linkedin/android/testbutler/ButlerService.java:152-166 | Rotation, location mode and locale are reset to the snapshot if and only if their flag is set; otherwise they are left as they are. Animations are enabled if `restoreAnimations` is set; otherwise they are left as they are. |
| `Butler.AfterIntentAddKey` | test-butler-app/src/main/java/com/linkedin/android/testbutler/ButlerService.java:182-215 | Handling a bundle with one more key is the same as handling that key last. So the bundle's key order does not matter. |
| `Butler.StepFlag` | test-butler-app/src/main/java/com/linkedin/android/testbutler/ButlerService.java:70-91 | IPC calls leave every flag unchanged. An intent clears exactly the flags of the recognised keys it carries. |
| `Butler.StepsKeepSnapshot` | test-butler-app/src/main/java/com/linkedin/android/testbutler/ButlerService.java:70-91 | No IPC call or intent changes the snapshot taken at create. |
| `Butler.FlagClearedIffKeySeen` | test-butler-app/src/main/java/com/linkedin/android/testbutler/ButlerService.java:184-212 | After any sequence of events, a flag is set exactly when it was set at the start and no intent carried its key. So flags only go from true to false, and once cleared they stay cleared. |
| `Butler.RunRestoresUnseen` | test-butler-app/src/main/java/com/linkedin/android/testbutler/ButlerService.java:141-170 | Over a whole run, each snapshotted setting that no intent extra overrode ends equal to its start value, even if IPC calls changed it. Animations end enabled unless an intent set them. |
| `Butler.RunKeepsSeen` | test-butler-app/src/main/java/com/linkedin/android/testbutler/ButlerService.java:153-166 | A setting that an intent overrode is not restored. It ends as the run last left it. |
| `Butler.RunWithoutExtrasRestoresAll` | test-butler-app/src/main/java/com/linkedin/android/testbutler/ButlerService.java:98-170 | With no intent extras, a run leaves every setting at its start value, with animations enabled. |
| `Butler.ButlerService.constructor` | test-butler-app/src/main/java/com/linkedin/android/testbutler/ButlerService.java:65-68 | A new service has all four restore flags set. |
| `Butler.ButlerService.OnCreate` | test-butler-app/src/main/java/com/linkedin/android/testbutler/ButlerService.java:98-139 | The object's new state is `AfterCreate` of the device's old settings. |
| `Butler.ButlerService.SetLocationMode` | test-butler-app/src/main/java/com/linkedin/android/testbutler/ButlerService.java:77-80 | Sets the location mode and nothing else; no flag changes. |
| `Butler.ButlerService.SetRotation` | test-butler-app/src/main/java/com/linkedin/android/testbutler/ButlerService.java:82-85 | Sets the rotation and nothing else; no flag changes. |
| `Butler.ButlerService.SetSystemLocale` | test-butler-app/src/main/java/com/linkedin/android/testbutler/ButlerService.java:87-90 | Sets the locale to (language, country) and nothing else; no flag changes. |
| `Butler.ButlerService.HandleExtraIn` | test-butler-app/src/main/java/com/linkedin/android/testbutler/ButlerService.java:183-214 | One pass of the loop, the `switch` on the key, performs `HandleExtra`. `location_mode` and `user_rotation` go through the IPC setters with defaults -1 and 0. `disable_animations` true disables animations and false enables them. A `system_locale` that parses replaces the locale. Each recognised key then clears its flag. |
| `Butler.ButlerService.HandleIntent` | test-butler-app/src/main/java/com/linkedin/android/testbutler/ButlerService.java:179-217 | Whatever order it visits the keys in, the loop ends in the state `AfterIntent` gives. Each key's effect and flag are as in `HandleExtra`. A `system_locale` that does not parse still clears its flag and leaves the locale unchanged. |
| `Butler.ButlerService.OnDestroy` | test-butler-app/src/main/java/com/linkedin/android/testbutler/ButlerService.java:141-170 | The device's new settings are `AfterDestroy` of the old state. A setting is reset exactly when its flag is set. |

## Left out

- Wi-Fi, keyguard and wake locks, and the IPC setter `setWifiState`: these are platform resource handles with no logic of their own.
- `NoDialogActivityController.install`/`uninstall`: the class is not part of this model.
- Logging, binder plumbing, `onBind` and `RemoteException` handling are left out.
- The bodies of `AnimationDisabler`, `RotationChanger` and `LocationServicesChanger` are not part of this model. Each becomes an assignment to a field of `Device`.
  - Animations are one boolean, not the two animation-scale settings.
  - Rotation is one integer, not the auto-rotate flag and the orientation.
- `SystemLocaleChanger` works through reflection, and its body is not modelled. Setting the locale is an assignment.
- Failures of platform and reflective calls are left out. So are the boolean results of the IPC setters: every platform call is assumed to succeed.
- `java.util.Locale` normalisation is left out on both paths that build a locale: the arguments of `setSystemLocale(language, country)` (lines 87-90) and the `new Locale(...)` of the parser (lines 227-229). The Java constructor lower-/upper-cases codes and rewrites some of them (he to iw, yi to ji, id to in) and special-cases ja_JP_JP and th_TH_TH. `LocaleString.ParseLocaleString` stores groups 1, 3 and 5 exactly as matched, so `LocaleString.ParseFormat`'s round trip holds of the three-string locale, not of a `java.util.Locale` after that rewriting.
- A null extras bundle is modelled as the empty map, which behaves the same.
- A `system_locale` extra that is not a string is excluded by a precondition (`LocaleIsString`). There `getString` returns null and `Pattern.matcher(null)` throws.
- `getInt` and `getBoolean` on a value of the wrong type return the default (-1 for location mode, 0 for rotation, false for animations). The type warning they log is left out.
- The host guarantees that `onCreate` runs once, on a freshly built service. `OnCreate` requires all flags set to stand for that.
- LocaleString.IsWordChar reads `\w` as the ASCII class `[a-zA-Z_0-9]`. The Android regex engine (ICU) also counts non-ASCII letters, marks, digits and connector punctuation as word characters in group 5. So a variant such as `é` is rejected here but accepted there.
- LocaleString.RejectsForeignChar inherits that ASCII reading. For a non-ASCII word character in the variant, the Android engine would give a locale, not null.
- Butler.AfterCreate takes the locale snapshot from the system locale that `Device.locale` stands for. The Java code snapshots the process default locale (`Locale.getDefault()`, line 135). The model assumes the two are equal at create, and the locale halves of `Butler.RunRestoresUnseen` and `Butler.RunWithoutExtrasRestoresAll` rest on that assumption.
