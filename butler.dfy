/**
 * The settings lifecycle of the Test Butler service (`ButlerService`).
 *
 * On create the service snapshots the device rotation, location mode and
 * locale and disables animations.  Each extra of an incoming intent applies
 * its setting and clears that setting's restore flag; the IPC setters apply a
 * setting and leave the flags alone.  On destroy every setting whose flag is
 * still set is put back (animations are re-enabled).
 *
 * The transitions are first stated on values (`Service` and the functions
 * `AfterCreate`, `AfterIntent`, `AfterDestroy`, ...) and the lemmas about a
 * whole run are proved there; the class `ButlerService` then performs them
 * step by step on the fields the Java class updates, and each of its methods
 * is proved to perform the matching transition.
 */
module Butler {
  import opened Wrappers
  import opened LocaleString

  /** Intent extra keys (`Settings.Secure.LOCATION_MODE`, `DISABLE_ANIMATIONS`, `SYSTEM_LOCALE`, `Settings.System.USER_ROTATION`). */
  const LocationModeKey := "location_mode"
  const DisableAnimationsKey := "disable_animations"
  const SystemLocaleKey := "system_locale"
  const UserRotationKey := "user_rotation"

  /** A value stored in an intent's extras bundle. */
  datatype Extra = IntValue(i: int) | BoolValue(b: bool) | StringValue(s: string) | OtherValue

  /** `Bundle.getInt(key, default)`: the stored int, or the default for a missing or non-int value. */
  function GetInt(value: Extra, default: int): int {
    if value.IntValue? then value.i else default
  }

  /** `Bundle.getBoolean(key, default)`: the stored boolean, or the default for a non-boolean value. */
  function GetBoolean(value: Extra, default: bool): bool {
    if value.BoolValue? then value.b else default
  }

  /** The device-wide settings the service touches. */
  datatype Settings = Settings(rotation: int, locationMode: int, animationsEnabled: bool, locale: Locale)

  /** What `onCreate` snapshots: rotation, location mode and the default locale. */
  datatype Saved = Saved(rotation: int, locationMode: int, locale: Locale)

  /** The four restore flags. */
  datatype Flags = Flags(restoreLocationMode: bool, restoreAnimations: bool,
                         restoreSystemLocale: bool, restoreRotation: bool)

  /** The state of the device and of a running service. */
  datatype Service = Service(device: Settings, saved: Saved, flags: Flags)

  /** Every flag starts out set. */
  const AllRestore := Flags(true, true, true, true)

  predicate Recognized(key: string) {
    key == LocationModeKey || key == DisableAnimationsKey || key == SystemLocaleKey || key == UserRotationKey
  }

  /** The restore flag that the extra `key` clears. */
  function FlagOf(flags: Flags, key: string): bool
    requires Recognized(key)
  {
    if key == LocationModeKey then flags.restoreLocationMode
    else if key == DisableAnimationsKey then flags.restoreAnimations
    else if key == SystemLocaleKey then flags.restoreSystemLocale
    else flags.restoreRotation
  }

  /** `getString(SYSTEM_LOCALE)` yields a string; a null there would make the Java matcher throw. */
  predicate LocaleIsString(extras: map<string, Extra>) {
    SystemLocaleKey in extras ==> extras[SystemLocaleKey].StringValue?
  }

  /** Construction and `onCreate`: all flags set, the snapshot taken, animations disabled. */
  function AfterCreate(device: Settings): (r: Service)
    ensures r.flags == AllRestore
  {
    Service(device.(animationsEnabled := false),
            Saved(device.rotation, device.locationMode, device.locale),
            AllRestore)
  }

  /** The IPC setter `setLocationMode`. */
  function WithLocationMode(svc: Service, mode: int): (r: Service)
    ensures r.flags == svc.flags && r.saved == svc.saved
    ensures r.device.locationMode == mode
    ensures r.device.(locationMode := svc.device.locationMode) == svc.device
  {
    svc.(device := svc.device.(locationMode := mode))
  }

  /** The IPC setter `setRotation`. */
  function WithRotation(svc: Service, rotation: int): (r: Service)
    ensures r.flags == svc.flags && r.saved == svc.saved
    ensures r.device.rotation == rotation
    ensures r.device.(rotation := svc.device.rotation) == svc.device
  {
    svc.(device := svc.device.(rotation := rotation))
  }

  /** The IPC setter `setSystemLocale(language, country)`. */
  function WithSystemLocale(svc: Service, language: string, country: string): (r: Service)
    ensures r.flags == svc.flags && r.saved == svc.saved
    ensures r.device.locale == Locale(language, country, "")
    ensures r.device.(locale := svc.device.locale) == svc.device
  {
    svc.(device := svc.device.(locale := Locale(language, country, "")))
  }

  /** The four keys are different strings (they differ in their first letter). */
  lemma KeysDistinct()
    ensures LocationModeKey != DisableAnimationsKey && LocationModeKey != SystemLocaleKey
    ensures LocationModeKey != UserRotationKey && DisableAnimationsKey != SystemLocaleKey
    ensures DisableAnimationsKey != UserRotationKey && SystemLocaleKey != UserRotationKey
  {
    assert LocationModeKey[0] == 'l' && DisableAnimationsKey[0] == 'd';
    assert SystemLocaleKey[0] == 's' && UserRotationKey[0] == 'u';
  }

  /** The locale after a `system_locale` extra: the parsed locale, or the current one when parsing gives null. */
  function LocaleAfter(current: Locale, localeString: string): (r: Locale)
    ensures ParseLocaleString(localeString).None? ==> r == current
    ensures ParseLocaleString(localeString).Some? ==> ValidLocale(r)
    ensures ParseLocaleString(localeString).Some? ==>
              localeString == Format(r, false) || localeString == Format(r, true)
  {
    match ParseLocaleString(localeString)
    case None => current
    case Some(locale) => locale
  }

  /** One pass of the `onHandleIntent` loop, for the extra `key` holding `value`. */
  function HandleExtra(svc: Service, key: string, value: Extra): (r: Service)
    requires key == SystemLocaleKey ==> value.StringValue?
    ensures r.saved == svc.saved
    ensures !Recognized(key) ==> r == svc
    ensures Recognized(key) ==> !FlagOf(r.flags, key)
    ensures forall k :: Recognized(k) && k != key ==> FlagOf(r.flags, k) == FlagOf(svc.flags, k)
  {
    KeysDistinct();
    if key == LocationModeKey then
      WithLocationMode(svc, GetInt(value, -1)).(flags := svc.flags.(restoreLocationMode := false))
    else if key == DisableAnimationsKey then
      svc.(device := svc.device.(animationsEnabled := !GetBoolean(value, false)),
           flags := svc.flags.(restoreAnimations := false))
    else if key == SystemLocaleKey then
      svc.(device := svc.device.(locale := LocaleAfter(svc.device.locale, value.s)),
           flags := svc.flags.(restoreSystemLocale := false))
    else if key == UserRotationKey then
      WithRotation(svc, GetInt(value, 0)).(flags := svc.flags.(restoreRotation := false))
    else
      svc
  }

  /** The flags after `onHandleIntent`: a flag is cleared by its own key and by nothing else. */
  function IntentFlags(f: Flags, extras: map<string, Extra>): (r: Flags)
    ensures forall k :: Recognized(k) ==> FlagOf(r, k) == (FlagOf(f, k) && k !in extras)
  {
    KeysDistinct();
    Flags(f.restoreLocationMode && LocationModeKey !in extras,
          f.restoreAnimations && DisableAnimationsKey !in extras,
          f.restoreSystemLocale && SystemLocaleKey !in extras,
          f.restoreRotation && UserRotationKey !in extras)
  }

  /** The device settings after `onHandleIntent`: each key present sets its own setting, the others are kept. */
  function IntentSettings(d: Settings, extras: map<string, Extra>): (r: Settings)
    requires LocaleIsString(extras)
    ensures LocationModeKey in extras ==> r.locationMode == GetInt(extras[LocationModeKey], -1)
    ensures UserRotationKey in extras ==> r.rotation == GetInt(extras[UserRotationKey], 0)
    ensures DisableAnimationsKey in extras ==>
              (r.animationsEnabled <==> !(extras[DisableAnimationsKey] == BoolValue(true)))
    ensures SystemLocaleKey in extras && ParseLocaleString(extras[SystemLocaleKey].s).None? ==>
              r.locale == d.locale
    ensures SystemLocaleKey in extras && ParseLocaleString(extras[SystemLocaleKey].s).Some? ==>
              r.locale == ParseLocaleString(extras[SystemLocaleKey].s).value
    ensures LocationModeKey !in extras ==> r.locationMode == d.locationMode
    ensures UserRotationKey !in extras ==> r.rotation == d.rotation
    ensures DisableAnimationsKey !in extras ==> r.animationsEnabled == d.animationsEnabled
    ensures SystemLocaleKey !in extras ==> r.locale == d.locale
  {
    Settings(
      if UserRotationKey in extras then GetInt(extras[UserRotationKey], 0) else d.rotation,
      if LocationModeKey in extras then GetInt(extras[LocationModeKey], -1) else d.locationMode,
      if DisableAnimationsKey in extras then !GetBoolean(extras[DisableAnimationsKey], false) else d.animationsEnabled,
      if SystemLocaleKey in extras then LocaleAfter(d.locale, extras[SystemLocaleKey].s) else d.locale)
  }

  /**
   * `onHandleIntent` on a whole bundle: each recognised key sets its own
   * setting and clears its own flag, and nothing else changes.  The Java loop
   * takes the keys in whatever order the bundle yields them; `HandleIntent`
   * below is proved to reach this state in every order.
   */
  function AfterIntent(svc: Service, extras: map<string, Extra>): (r: Service)
    requires LocaleIsString(extras)
    ensures r.saved == svc.saved
    ensures forall k :: Recognized(k) ==> FlagOf(r.flags, k) == (FlagOf(svc.flags, k) && k !in extras)
    ensures LocationModeKey in extras ==> r.device.locationMode == GetInt(extras[LocationModeKey], -1)
    ensures UserRotationKey in extras ==> r.device.rotation == GetInt(extras[UserRotationKey], 0)
    ensures DisableAnimationsKey in extras ==>
              (r.device.animationsEnabled <==> !(extras[DisableAnimationsKey] == BoolValue(true)))
    ensures SystemLocaleKey in extras && ParseLocaleString(extras[SystemLocaleKey].s).None? ==>
              r.device.locale == svc.device.locale
    ensures SystemLocaleKey in extras && ParseLocaleString(extras[SystemLocaleKey].s).Some? ==>
              r.device.locale == ParseLocaleString(extras[SystemLocaleKey].s).value
    ensures LocationModeKey !in extras ==> r.device.locationMode == svc.device.locationMode
    ensures UserRotationKey !in extras ==> r.device.rotation == svc.device.rotation
    ensures DisableAnimationsKey !in extras ==> r.device.animationsEnabled == svc.device.animationsEnabled
    ensures SystemLocaleKey !in extras ==> r.device.locale == svc.device.locale
  {
    Service(IntentSettings(svc.device, extras), svc.saved, IntentFlags(svc.flags, extras))
  }

  /** `onDestroy`: the device settings once every flagged setting is put back. */
  function AfterDestroy(svc: Service): (r: Settings)
    ensures r.animationsEnabled == (svc.flags.restoreAnimations || svc.device.animationsEnabled)
    ensures r.locationMode == if svc.flags.restoreLocationMode then svc.saved.locationMode else svc.device.locationMode
    ensures r.locale == if svc.flags.restoreSystemLocale then svc.saved.locale else svc.device.locale
    ensures r.rotation == if svc.flags.restoreRotation then svc.saved.rotation else svc.device.rotation
  {
    var d := svc.device;
    var d1 := if svc.flags.restoreAnimations then d.(animationsEnabled := true) else d;
    var d2 := if svc.flags.restoreLocationMode then d1.(locationMode := svc.saved.locationMode) else d1;
    var d3 := if svc.flags.restoreSystemLocale then d2.(locale := svc.saved.locale) else d2;
    if svc.flags.restoreRotation then d3.(rotation := svc.saved.rotation) else d3
  }

  /** Adding one more extra to the bundle is the same as handling it last: the loop may visit the keys in any order. */
  lemma AfterIntentAddKey(svc: Service, extras: map<string, Extra>, key: string, value: Extra)
    requires LocaleIsString(extras)
    requires key !in extras
    requires key == SystemLocaleKey ==> value.StringValue?
    ensures LocaleIsString(extras[key := value])
    ensures AfterIntent(svc, extras[key := value]) == HandleExtra(AfterIntent(svc, extras), key, value)
  {
    KeysDistinct();
  }

  /** Something that happens to a running service: an IPC call or an incoming intent. */
  datatype Event =
    | LocationModeCall(mode: int)
    | RotationCall(rotation: int)
    | SystemLocaleCall(language: string, country: string)
    | Intent(extras: map<string, Extra>)

  predicate WellTyped(e: Event) {
    e.Intent? ==> LocaleIsString(e.extras)
  }

  function Step(svc: Service, e: Event): Service
    requires WellTyped(e)
  {
    match e
    case LocationModeCall(mode) => WithLocationMode(svc, mode)
    case RotationCall(rotation) => WithRotation(svc, rotation)
    case SystemLocaleCall(language, country) => WithSystemLocale(svc, language, country)
    case Intent(extras) => AfterIntent(svc, extras)
  }

  function Steps(svc: Service, events: seq<Event>): Service
    requires forall i :: 0 <= i < |events| ==> WellTyped(events[i])
    decreases |events|
  {
    if events == [] then svc else Steps(Step(svc, events[0]), events[1..])
  }

  /** A whole run: create, the events in order, destroy; the device settings it leaves behind. */
  function Run(start: Settings, events: seq<Event>): Settings
    requires forall i :: 0 <= i < |events| ==> WellTyped(events[i])
  {
    AfterDestroy(Steps(AfterCreate(start), events))
  }

  /** Some intent among `events` carries the extra `key`. */
  predicate KeySeen(events: seq<Event>, key: string) {
    exists i :: 0 <= i < |events| && events[i].Intent? && key in events[i].extras
  }

  /** Neither IPC calls nor intents touch the snapshot taken at create. */
  lemma {:induction false} StepsKeepSnapshot(svc: Service, events: seq<Event>)
    requires forall i :: 0 <= i < |events| ==> WellTyped(events[i])
    ensures Steps(svc, events).saved == svc.saved
    decreases |events|
  {
    if events != [] {
      StepsKeepSnapshot(Step(svc, events[0]), events[1..]);
    }
  }

  /** An intent clears the flag of each recognised key it carries and leaves the other flags alone; IPC calls leave every flag alone. */
  lemma StepFlag(svc: Service, e: Event, key: string)
    requires WellTyped(e) && Recognized(key)
    ensures FlagOf(Step(svc, e).flags, key) == (FlagOf(svc.flags, key) && !(e.Intent? && key in e.extras))
  {
    KeysDistinct();
  }

  /**
   * A restore flag is clear at the end exactly when it was clear at the start
   * or some intent carried its key: flags only ever go from set to clear, and
   * only intents clear them.
   */
  lemma {:induction false} FlagClearedIffKeySeen(svc: Service, events: seq<Event>, key: string)
    requires forall i :: 0 <= i < |events| ==> WellTyped(events[i])
    requires Recognized(key)
    ensures FlagOf(Steps(svc, events).flags, key) == (FlagOf(svc.flags, key) && !KeySeen(events, key))
    decreases |events|
  {
    if events != [] {
      StepFlag(svc, events[0], key);
      FlagClearedIffKeySeen(Step(svc, events[0]), events[1..], key);
      if KeySeen(events[1..], key) {
        var i :| 0 <= i < |events[1..]| && events[1..][i].Intent? && key in events[1..][i].extras;
        assert events[i + 1] == events[1..][i];
      }
      if KeySeen(events, key) && !(events[0].Intent? && key in events[0].extras) {
        var i :| 0 <= i < |events| && events[i].Intent? && key in events[i].extras;
        assert events[1..][i - 1] == events[i];
      }
    }
  }

  /**
   * A run puts back every snapshotted setting that no intent overrode, whatever
   * IPC calls were made in between, and re-enables animations unless an intent
   * set them.
   */
  lemma RunRestoresUnseen(start: Settings, events: seq<Event>)
    requires forall i :: 0 <= i < |events| ==> WellTyped(events[i])
    ensures !KeySeen(events, LocationModeKey) ==> Run(start, events).locationMode == start.locationMode
    ensures !KeySeen(events, UserRotationKey) ==> Run(start, events).rotation == start.rotation
    ensures !KeySeen(events, SystemLocaleKey) ==> Run(start, events).locale == start.locale
    ensures !KeySeen(events, DisableAnimationsKey) ==> Run(start, events).animationsEnabled
  {
    var created := AfterCreate(start);
    StepsKeepSnapshot(created, events);
    FlagClearedIffKeySeen(created, events, LocationModeKey);
    FlagClearedIffKeySeen(created, events, UserRotationKey);
    FlagClearedIffKeySeen(created, events, SystemLocaleKey);
    FlagClearedIffKeySeen(created, events, DisableAnimationsKey);
  }

  /** A setting some intent overrode is left as the run last set it. */
  lemma RunKeepsSeen(start: Settings, events: seq<Event>)
    requires forall i :: 0 <= i < |events| ==> WellTyped(events[i])
    ensures KeySeen(events, LocationModeKey) ==>
              Run(start, events).locationMode == Steps(AfterCreate(start), events).device.locationMode
    ensures KeySeen(events, UserRotationKey) ==>
              Run(start, events).rotation == Steps(AfterCreate(start), events).device.rotation
    ensures KeySeen(events, SystemLocaleKey) ==>
              Run(start, events).locale == Steps(AfterCreate(start), events).device.locale
    ensures KeySeen(events, DisableAnimationsKey) ==>
              Run(start, events).animationsEnabled == Steps(AfterCreate(start), events).device.animationsEnabled
  {
    var created := AfterCreate(start);
    FlagClearedIffKeySeen(created, events, LocationModeKey);
    FlagClearedIffKeySeen(created, events, UserRotationKey);
    FlagClearedIffKeySeen(created, events, SystemLocaleKey);
    FlagClearedIffKeySeen(created, events, DisableAnimationsKey);
  }

  /** With no intent extras, a run leaves the device as it found it, with animations enabled. */
  lemma RunWithoutExtrasRestoresAll(start: Settings, events: seq<Event>)
    requires forall i :: 0 <= i < |events| ==> WellTyped(events[i])
    requires forall i :: 0 <= i < |events| ==> events[i].Intent? ==> events[i].extras == map[]
    ensures Run(start, events) == start.(animationsEnabled := true)
  {
    RunRestoresUnseen(start, events);
  }

  /** The device's settings store.  The platform calls the service makes become assignments to its fields. */
  class Device {
    var rotation: int
    var locationMode: int
    var animationsEnabled: bool
    var locale: Locale

    constructor (current: Settings)
      ensures Current() == current
    {
      rotation, locationMode := current.rotation, current.locationMode;
      animationsEnabled, locale := current.animationsEnabled, current.locale;
    }

    function Current(): Settings
      reads this
    {
      Settings(rotation, locationMode, animationsEnabled, locale)
    }
  }

  /** The service object, with the fields the Java class updates. */
  class ButlerService {
    const device: Device
    /** Held by `RotationChanger` and `LocationServicesChanger` once they have saved the current state. */
    var savedRotation: int
    var savedLocationMode: int
    /** The locale read at create. */
    var systemLocale: Locale
    var restoreLocationMode: bool
    var restoreAnimations: bool
    var restoreSystemLocale: bool
    var restoreRotation: bool

    /** The state of the device and the service, as a value. */
    ghost function Model(): Service
      reads this, device
    {
      Service(device.Current(),
              Saved(savedRotation, savedLocationMode, systemLocale),
              Flags(restoreLocationMode, restoreAnimations, restoreSystemLocale, restoreRotation))
    }

    /** The field initialisers: every restore flag starts set. */
    constructor (device: Device)
      ensures this.device == device
      ensures Model().flags == AllRestore
    {
      this.device := device;
      savedRotation, savedLocationMode, systemLocale := 0, 0, Locale("", "", "");
      restoreLocationMode, restoreAnimations, restoreSystemLocale, restoreRotation := true, true, true, true;
    }

    /** `onCreate`: snapshot rotation, location mode and locale, and disable animations. */
    method OnCreate()
      requires Model().flags == AllRestore
      modifies this, device
      ensures Model() == AfterCreate(old(device.Current()))
    {
      savedRotation := device.rotation;
      savedLocationMode := device.locationMode;
      device.animationsEnabled := false;
      systemLocale := device.locale;
    }

    /** The IPC setter `setLocationMode`: the flags are left alone. */
    method SetLocationMode(mode: int)
      modifies device
      ensures Model() == WithLocationMode(old(Model()), mode)
    {
      device.locationMode := mode;
    }

    /** The IPC setter `setRotation`: the flags are left alone. */
    method SetRotation(rotation: int)
      modifies device
      ensures Model() == WithRotation(old(Model()), rotation)
    {
      device.rotation := rotation;
    }

    /** The IPC setter `setSystemLocale(language, country)`: the flags are left alone. */
    method SetSystemLocale(language: string, country: string)
      modifies device
      ensures Model() == WithSystemLocale(old(Model()), language, country)
    {
      device.locale := Locale(language, country, "");
    }

    /** One pass of the `onHandleIntent` loop: the `switch` on `key`. */
    method HandleExtraIn(key: string, value: Extra)
      requires key == SystemLocaleKey ==> value.StringValue?
      modifies this, device
      ensures Model() == HandleExtra(old(Model()), key, value)
    {
      KeysDistinct();
      if key == LocationModeKey {
        SetLocationMode(GetInt(value, -1));
        restoreLocationMode := false;
      } else if key == DisableAnimationsKey {
        if GetBoolean(value, false) {
          device.animationsEnabled := false;
        } else {
          device.animationsEnabled := true;
        }
        restoreAnimations := false;
      } else if key == SystemLocaleKey {
        var locale := ParseLocaleString(value.s);
        if locale.Some? {
          device.locale := locale.value;
        }
        restoreSystemLocale := false;
      } else if key == UserRotationKey {
        SetRotation(GetInt(value, 0));
        restoreRotation := false;
      }
    }

    /** `onHandleIntent`: visit the bundle's keys in whatever order it yields them. */
    method HandleIntent(extras: map<string, Extra>)
      requires LocaleIsString(extras)
      modifies this, device
      ensures Model() == AfterIntent(old(Model()), extras)
    {
      var remaining := extras.Keys;
      ghost var done: map<string, Extra> := map[];
      while remaining != {}
        invariant remaining <= extras.Keys
        invariant done.Keys == extras.Keys - remaining
        invariant forall k :: k in done ==> done[k] == extras[k]
        invariant LocaleIsString(done)
        invariant Model() == AfterIntent(old(Model()), done)
        decreases remaining
      {
        var key :| key in remaining;
        var value := extras[key];
        HandleExtraIn(key, value);
        AfterIntentAddKey(old(Model()), done, key, value);
        remaining := remaining - {key};
        done := done[key := value];
      }
      assert done == extras;
    }

    /** `onDestroy`: put back each setting whose restore flag is still set. */
    method OnDestroy()
      modifies device
      ensures device.Current() == AfterDestroy(old(Model()))
    {
      if restoreAnimations {
        device.animationsEnabled := true;
      }
      if restoreLocationMode {
        device.locationMode := savedLocationMode;
      }
      if restoreSystemLocale {
        device.locale := systemLocale;
      }
      if restoreRotation {
        device.rotation := savedRotation;
      }
    }
  }
}
