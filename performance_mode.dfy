/**
 * The performance-mode hook of `hooks/use-performance-mode.ts`: whether 3D
 * motion is reduced. A preference stored in `localStorage` overrides the
 * system's `prefers-reduced-motion`; toggling stores the new value, and
 * once a value is stored, changes of the system preference are ignored.
 *
 * `localStorage` is a map from keys to strings; `matchMedia(...).matches`
 * and the change events it fires are inputs.
 */
module PerformanceMode {
  import opened Wrappers

  const PerformanceModeKey: string := "stellar-performance-mode"

  /** `String(b)` for a boolean. */
  function BoolString(b: bool): (s: string)
    ensures s == "true" <==> b
  {
    if b then "true" else "false"
  }

  /** `localStorage.getItem(key)`: null when the key is absent. */
  function GetItem(storage: map<string, string>, key: string): (r: Option<string>)
    ensures r.Some? <==> key in storage
    ensures r.Some? ==> r.value == storage[key]
  {
    if key in storage then Some(storage[key]) else None
  }

  /** `stored !== null ? stored === 'true' : null`. */
  function UserPreference(stored: Option<string>): (r: Option<bool>)
    ensures r.Some? <==> stored.Some?
    ensures r == Some(true) <==> stored == Some("true")
  {
    if stored.Some? then Some(stored.value == "true") else None
  }

  /** `userPreference ?? systemPrefersReduced`. */
  function Resolve(stored: Option<string>, systemPrefersReduced: bool): (reduced: bool)
    ensures stored.None? ==> reduced == systemPrefersReduced
    ensures stored.Some? ==> (reduced <==> stored.value == "true")
  {
    var user := UserPreference(stored);
    if user.Some? then user.value else systemPrefersReduced
  }

  /** The hook's two state fields and the storage it reads and writes. */
  datatype ModeState = ModeState(isReducedMotion: bool, isLoaded: bool, storage: map<string, string>)

  /** What happens after mounting: a toggle, or a change of the system preference. */
  datatype Event = Toggle | SystemChange(matches: bool)

  /** The `useState` initial values. */
  function Initial(storage: map<string, string>): (st: ModeState)
    ensures !st.isReducedMotion && !st.isLoaded && st.storage == storage
  {
    ModeState(false, false, storage)
  }

  /** The mount effect. */
  function Loaded(st: ModeState, systemPrefersReduced: bool): (r: ModeState)
    ensures r.isLoaded && r.storage == st.storage
    ensures r.isReducedMotion == Resolve(GetItem(st.storage, PerformanceModeKey), systemPrefersReduced)
  {
    ModeState(Resolve(GetItem(st.storage, PerformanceModeKey), systemPrefersReduced), true, st.storage)
  }

  function Apply(st: ModeState, e: Event): ModeState {
    match e
    case Toggle =>
      var next := !st.isReducedMotion;
      ModeState(next, st.isLoaded, st.storage[PerformanceModeKey := BoolString(next)])
    case SystemChange(matches) =>
      if GetItem(st.storage, PerformanceModeKey).None? then st.(isReducedMotion := matches) else st
  }

  function Run(st: ModeState, events: seq<Event>): ModeState
    decreases |events|
  {
    if events == [] then st else Run(Apply(st, events[0]), events[1..])
  }

  /** The stored value is the string of the current mode. */
  predicate Synced(st: ModeState) {
    PerformanceModeKey in st.storage && st.storage[PerformanceModeKey] == BoolString(st.isReducedMotion)
  }

  /** A toggle flips the mode, stores it, and touches no other key. */
  lemma ToggleStores(st: ModeState)
    ensures var r := Apply(st, Toggle);
      && r.isReducedMotion == !st.isReducedMotion
      && Synced(r)
      && r.isLoaded == st.isLoaded
      && (forall k :: k in st.storage && k != PerformanceModeKey ==> k in r.storage && r.storage[k] == st.storage[k])
  {
  }

  /** Toggling twice restores the mode, and the storage then holds its string. */
  lemma ToggleTwice(st: ModeState)
    ensures var r := Apply(Apply(st, Toggle), Toggle);
      r.isReducedMotion == st.isReducedMotion && Synced(r)
  {
  }

  /** A system change sets the mode exactly when nothing is stored. */
  lemma SystemChangeRule(st: ModeState, matches: bool)
    ensures var r := Apply(st, SystemChange(matches));
      && r.storage == st.storage
      && (PerformanceModeKey !in st.storage ==> r.isReducedMotion == matches)
      && (PerformanceModeKey in st.storage ==> r == st)
  {
  }

  /** Once the mode is in sync with the storage, every later event keeps it so. */
  lemma {:induction false} RunKeepsSynced(st: ModeState, events: seq<Event>)
    requires Synced(st)
    ensures Synced(Run(st, events))
    decreases |events|
  {
    if events != [] {
      RunKeepsSynced(Apply(st, events[0]), events[1..]);
    }
  }

  /** After a toggle, the stored value always equals the mode's string. */
  lemma StoredAfterToggle(st: ModeState, events: seq<Event>)
    ensures Synced(Run(Apply(st, Toggle), events))
  {
    RunKeepsSynced(Apply(st, Toggle), events);
  }

  /** Once something is stored, system changes alone never move the mode. */
  lemma {:induction false} SystemChangesIgnored(st: ModeState, events: seq<Event>)
    requires PerformanceModeKey in st.storage
    requires forall i :: 0 <= i < |events| ==> events[i].SystemChange?
    ensures Run(st, events) == st
    decreases |events|
  {
    if events != [] {
      SystemChangesIgnored(Apply(st, events[0]), events[1..]);
    }
  }

  /** After any toggle, later system changes are ignored. */
  lemma SystemIgnoredAfterToggle(st: ModeState, events: seq<Event>)
    requires forall i :: 0 <= i < |events| ==> events[i].SystemChange?
    ensures Run(Apply(st, Toggle), events).isReducedMotion == !st.isReducedMotion
  {
    SystemChangesIgnored(Apply(st, Toggle), events);
  }

  /** Any stored string other than "true" loads as motion not reduced. */
  lemma StoredWins(st: ModeState, systemPrefersReduced: bool)
    requires PerformanceModeKey in st.storage
    ensures Loaded(st, systemPrefersReduced).isReducedMotion <==> st.storage[PerformanceModeKey] == "true"
  {
  }

  class Hook {
    var isReducedMotion: bool
    var isLoaded: bool
    /** `localStorage`. */
    var storage: map<string, string>

    function State(): ModeState
      reads this
    {
      ModeState(isReducedMotion, isLoaded, storage)
    }

    constructor (initialStorage: map<string, string>)
      ensures State() == Initial(initialStorage)
    {
      isReducedMotion := false;
      isLoaded := false;
      storage := initialStorage;
    }

    /** The mount effect: a stored preference wins over the system's. */
    method Load(systemPrefersReduced: bool)
      modifies this
      ensures State() == Loaded(old(State()), systemPrefersReduced)
    {
      var stored := GetItem(storage, PerformanceModeKey);
      var userPreference := if stored.Some? then Some(stored.value == "true") else None;
      isReducedMotion := if userPreference.Some? then userPreference.value else systemPrefersReduced;
      isLoaded := true;
    }

    /** `handleChange`: follow the system only while nothing is stored. */
    method HandleChange(matches: bool)
      modifies this
      ensures State() == Apply(old(State()), SystemChange(matches))
    {
      if GetItem(storage, PerformanceModeKey).None? {
        isReducedMotion := matches;
      }
    }

    /** `togglePerformanceMode`: flip the mode and store its string. */
    method TogglePerformanceMode()
      modifies this
      ensures State() == Apply(old(State()), Toggle)
    {
      var next := !isReducedMotion;
      storage := storage[PerformanceModeKey := BoolString(next)];
      isReducedMotion := next;
    }
  }
}
