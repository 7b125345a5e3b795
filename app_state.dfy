/**
 * The client session state (app/scripts/state.js): the theme, model key and mode, the
 * per-mode chat histories, and the preferences and location kept in local storage.
 * Storage is a map from key to value; the events the source dispatches are not modelled.
 */
module AppState {
  import opened Wrappers
  import opened JsText

  /** `LS_KEYS`. */
  const ThemeKey := "pw.theme"
  const ModelKey := "pw.model"
  const ModeKey := "pw.mode"
  const CityKey := "pw.city"
  const StateKey := "pw.state"

  /** `THEMES.includes(t)`. */
  predicate IsTheme(t: string)
  {
    t == "matrix" || t == "dark" || t == "aurora" || t == "light" || t == "bright-white" || t == "nyan-cat" || t == "rainbow"
  }

  /** Whether `MODES[m]` is defined. */
  predicate IsMode(m: string)
  {
    m == "doctor" || m == "therapist" || m == "web" || m == "basic" || m == "excuse" || m == "grammar" || m == "eli5"
  }

  /** The longest content a stored message keeps. */
  const MaxContent := 8000

  datatype ChatMessage = ChatMessage(role: string, content: string)

  /** The whole state: the fields of `state`, `chatHistories`, and local storage. */
  datatype Snapshot = Snapshot(theme: string, modelKey: string, mode: string,
                               histories: map<string, seq<ChatMessage>>, storage: map<string, string>)

  /** The keys of `MODES`. */
  const ModeIds: set<string> := {"doctor", "therapist", "web", "basic", "excuse", "grammar", "eli5"}

  /** The state the store keeps: a valid theme and mode, and a history for exactly the known modes. */
  ghost predicate Good(s: Snapshot)
  {
    IsTheme(s.theme) && IsMode(s.mode) && s.histories.Keys == ModeIds
  }

  /** `localStorage.getItem(key)`, with `None` for a missing key. */
  function Get(storage: map<string, string>, key: string): Option<string>
  {
    if key in storage then Some(storage[key]) else None
  }

  /**
   * `loadPersisted()`: each of the theme, the model key and the mode is read on its own;
   * a stored theme or mode is adopted when valid, a stored model key when non-empty, and
   * otherwise the current value is kept, whatever the other two keys hold.
   */
  function Loaded(s: Snapshot): (r: Snapshot)
    ensures Good(s) ==> Good(r)
    ensures r.(theme := s.theme, modelKey := s.modelKey, mode := s.mode) == s
    ensures ThemeKey in s.storage && IsTheme(s.storage[ThemeKey]) ==> r.theme == s.storage[ThemeKey]
    ensures !(ThemeKey in s.storage && IsTheme(s.storage[ThemeKey])) ==> r.theme == s.theme
    ensures ModelKey in s.storage && s.storage[ModelKey] != "" ==> r.modelKey == s.storage[ModelKey]
    ensures !(ModelKey in s.storage && s.storage[ModelKey] != "") ==> r.modelKey == s.modelKey
    ensures ModeKey in s.storage && IsMode(s.storage[ModeKey]) ==> r.mode == s.storage[ModeKey]
    ensures !(ModeKey in s.storage && IsMode(s.storage[ModeKey])) ==> r.mode == s.mode
  {
    var t := Get(s.storage, ThemeKey);
    var m := Get(s.storage, ModelKey);
    var md := Get(s.storage, ModeKey);
    s.(theme := if t.Some? && IsTheme(t.value) then t.value else s.theme,
       modelKey := if m.Some? && m.value != "" then m.value else s.modelKey,
       mode := if md.Some? && IsMode(md.value) then md.value else s.mode)
  }

  /** `setTheme(theme)`: an unknown theme changes nothing; a known one is adopted and stored. */
  function WithTheme(s: Snapshot, theme: string): (r: Snapshot)
    ensures Good(s) ==> Good(r)
    ensures !IsTheme(theme) ==> r == s
    ensures IsTheme(theme) ==> r.theme == theme && r.storage == s.storage[ThemeKey := theme]
    ensures r.(theme := s.theme, storage := s.storage) == s
  {
    if !IsTheme(theme) then s
    else s.(theme := theme, storage := s.storage[ThemeKey := theme])
  }

  /** `setModelKey(key)`: any key is adopted and stored. */
  function WithModelKey(s: Snapshot, key: string): (r: Snapshot)
    ensures Good(s) ==> Good(r)
    ensures r.modelKey == key && r.storage == s.storage[ModelKey := key]
    ensures r.(modelKey := s.modelKey, storage := s.storage) == s
  {
    s.(modelKey := key, storage := s.storage[ModelKey := key])
  }

  /** `setMode(mode)`: an unknown mode changes nothing; a known one is adopted and stored. */
  function WithMode(s: Snapshot, mode: string): (r: Snapshot)
    ensures Good(s) ==> Good(r)
    ensures !IsMode(mode) ==> r == s
    ensures IsMode(mode) ==> r.mode == mode && r.storage == s.storage[ModeKey := mode]
    ensures r.(mode := s.mode, storage := s.storage) == s
  {
    if !IsMode(mode) then s
    else s.(mode := mode, storage := s.storage[ModeKey := mode])
  }

  /** `getChatHistory(mode)`: the mode's messages, or none for an unknown mode. */
  function History(s: Snapshot, mode: string): seq<ChatMessage>
  {
    if mode in s.histories then s.histories[mode] else []
  }

  /** `String(content || '').slice(0, 8000)`, for a content that is a string. */
  function Cut(content: string): (r: string)
    ensures |r| <= MaxContent && |r| <= |content| && r == content[..|r|]
    ensures |content| <= MaxContent ==> r == content
    ensures |r| == if |content| <= MaxContent then |content| else MaxContent
  {
    if |content| <= MaxContent then content else content[..MaxContent]
  }

  /** `appendChatMessage(mode, message)` on a known mode whose history exists. */
  function Appended(s: Snapshot, mode: string, message: ChatMessage): Snapshot
  {
    if !IsMode(mode) || mode !in s.histories then s
    else s.(histories := s.histories[mode := s.histories[mode] + [ChatMessage(message.role, Cut(message.content))]])
  }

  /** `clearChat(mode)`. */
  function Cleared(s: Snapshot, mode: string): Snapshot
  {
    if !IsMode(mode) then s
    else s.(histories := s.histories[mode := []])
  }

  /** `(localStorage.getItem(key) || '')`. */
  function Stored(storage: map<string, string>, key: string): string
  {
    if key in storage then storage[key] else ""
  }

  /** `getLocation()`: the stored city trimmed, the stored state trimmed and upper-cased. */
  function LocationOf(s: Snapshot): (string, string)
  {
    (Trim(Stored(s.storage, CityKey)), Upper(Trim(Stored(s.storage, StateKey))))
  }

  /** `localStorage.setItem(key, v)` for a non-empty value, `removeItem(key)` for an empty one. */
  function Put(storage: map<string, string>, key: string, v: string): map<string, string>
  {
    if v != "" then storage[key := v] else storage - {key}
  }

  /** `setLocation({city, state})`: each value trimmed is stored, or its key removed when empty. */
  function WithLocation(s: Snapshot, city: string, state: string): Snapshot
  {
    s.(storage := Put(Put(s.storage, CityKey, Trim(city)), StateKey, Upper(Trim(state))))
  }

  // ---------------------------------------------------------------------------
  // Properties of the operations
  // ---------------------------------------------------------------------------

  /** Appending to an unknown mode changes nothing. */
  lemma AppendUnknownMode(s: Snapshot, mode: string, message: ChatMessage)
    requires !IsMode(mode)
    ensures Appended(s, mode, message) == s
  {
  }

  /**
   * Appending to a known mode adds exactly one message at the end of its history, with
   * the role kept and the content cut to its first 8000 characters; every other history and
   * every other part of the state are unchanged.
   */
  lemma AppendAddsOne(s: Snapshot, mode: string, message: ChatMessage)
    requires Good(s) && IsMode(mode)
    ensures var h := History(Appended(s, mode, message), mode);
      && |h| == |History(s, mode)| + 1
      && h[..|h| - 1] == History(s, mode)
      && h[|h| - 1].role == message.role
      && |h[|h| - 1].content| == (if |message.content| <= MaxContent then |message.content| else MaxContent)
      && h[|h| - 1].content == message.content[..|h[|h| - 1].content|]
    ensures forall other :: other != mode ==> History(Appended(s, mode, message), other) == History(s, other)
    ensures Good(Appended(s, mode, message))
    ensures Appended(s, mode, message).(histories := s.histories) == s
  {
    var h := History(Appended(s, mode, message), mode);
    assert h == s.histories[mode] + [ChatMessage(message.role, Cut(message.content))];
  }

  /** Clearing a known mode empties its history and leaves the others; an unknown mode changes nothing. */
  lemma ClearEmpties(s: Snapshot, mode: string)
    ensures IsMode(mode) ==> History(Cleared(s, mode), mode) == []
    ensures !IsMode(mode) ==> Cleared(s, mode) == s
    ensures forall other :: other != mode ==> History(Cleared(s, mode), other) == History(s, other)
    ensures Good(s) ==> Good(Cleared(s, mode))
  {
  }

  /** A history read for an unknown mode is empty. */
  lemma HistoryUnknownMode(s: Snapshot, mode: string)
    requires Good(s) && !IsMode(mode)
    ensures History(s, mode) == []
  {
  }

  /** A theme, model key or mode that was set is what the next load adopts. */
  lemma PreferencesPersist(s: Snapshot, theme: string, key: string, mode: string, later: Snapshot)
    requires IsTheme(theme) && key != "" && IsMode(mode)
    requires later.storage == WithMode(WithModelKey(WithTheme(s, theme), key), mode).storage
    ensures Loaded(later).theme == theme && Loaded(later).modelKey == key && Loaded(later).mode == mode
  {
  }

  /** A theme that was set is what the next load adopts, whatever else is stored. */
  lemma ThemePersists(s: Snapshot, theme: string, later: Snapshot)
    requires IsTheme(theme)
    requires later.storage == WithTheme(s, theme).storage
    ensures Loaded(later).theme == theme
  {
  }

  /** A non-empty model key that was set is what the next load adopts; an empty one is not. */
  lemma ModelKeyPersists(s: Snapshot, key: string, later: Snapshot)
    requires later.storage == WithModelKey(s, key).storage
    ensures key != "" ==> Loaded(later).modelKey == key
    ensures key == "" ==> Loaded(later).modelKey == later.modelKey
  {
  }

  /** A mode that was set is what the next load adopts, whatever else is stored. */
  lemma ModePersists(s: Snapshot, mode: string, later: Snapshot)
    requires IsMode(mode)
    requires later.storage == WithMode(s, mode).storage
    ensures Loaded(later).mode == mode
  {
  }

  /** With nothing valid stored, loading changes nothing. */
  lemma LoadIgnoresInvalid(s: Snapshot)
    requires Get(s.storage, ThemeKey).None? || !IsTheme(Get(s.storage, ThemeKey).value)
    requires Get(s.storage, ModeKey).None? || !IsMode(Get(s.storage, ModeKey).value)
    requires Get(s.storage, ModelKey).None? || Get(s.storage, ModelKey).value == ""
    ensures Loaded(s) == s
  {
  }

  /**
   * Reading the location back gives what was set, trimmed and with the state upper-cased;
   * an empty value removes its key and reads back empty.
   */
  lemma LocationRoundTrip(s: Snapshot, city: string, state: string)
    ensures LocationOf(WithLocation(s, city, state)).0 == Trim(city)
    ensures LocationOf(WithLocation(s, city, state)).1 == Upper(Trim(state))
    ensures Trim(city) == "" ==> CityKey !in WithLocation(s, city, state).storage
    ensures Upper(Trim(state)) == "" ==> StateKey !in WithLocation(s, city, state).storage
  {
    CityRoundTrip(s, city, state);
    StateRoundTrip(s, city, state);
  }

  lemma CityRoundTrip(s: Snapshot, city: string, state: string)
    ensures LocationOf(WithLocation(s, city, state)).0 == Trim(city)
    ensures Trim(city) == "" ==> CityKey !in WithLocation(s, city, state).storage
  {
    StoredAfterLocation(s, city, state);
    TrimIdempotent(city);
  }

  lemma StateRoundTrip(s: Snapshot, city: string, state: string)
    ensures LocationOf(WithLocation(s, city, state)).1 == Upper(Trim(state))
    ensures Upper(Trim(state)) == "" ==> StateKey !in WithLocation(s, city, state).storage
  {
    StoredAfterLocation(s, city, state);
    UpperTrimmed(Trim(state));
  }

  /** After `setLocation` the storage holds the trimmed city and the trimmed, upper-cased state. */
  lemma StoredAfterLocation(s: Snapshot, city: string, state: string)
    ensures var m := WithLocation(s, city, state).storage;
      && Stored(m, CityKey) == Trim(city) && Stored(m, StateKey) == Upper(Trim(state))
      && (Trim(city) == "" ==> CityKey !in m)
      && (Upper(Trim(state)) == "" ==> StateKey !in m)
  {
    assert CityKey != StateKey by {
      assert CityKey[3] != StateKey[3];
    }
    var m1 := Put(s.storage, CityKey, Trim(city));
    PutReads(s.storage, CityKey, Trim(city), StateKey);
    PutReads(m1, StateKey, Upper(Trim(state)), CityKey);
  }

  /** A written key reads back its value (or is absent when the value is empty); any other key is untouched. */
  lemma PutReads(storage: map<string, string>, key: string, v: string, other: string)
    requires other != key
    ensures var r := Put(storage, key, v);
      && Stored(r, key) == v && (v == "" <==> key !in r)
      && Stored(r, other) == Stored(storage, other) && (other in r <==> other in storage)
  {
  }

  /** An upper-cased text without white space at its ends is its own trim and its own upper case. */
  lemma UpperTrimmed(t: string)
    requires t == [] || (!IsSpace(t[0]) && !IsSpace(t[|t| - 1]))
    ensures Upper(Trim(Upper(t))) == Upper(t)
  {
    var u := Upper(t);
    TrimmedAlready(u);
    UpperIdempotent(t);
  }

  lemma UpperIdempotent(t: string)
    ensures Upper(Upper(t)) == Upper(t)
  {
  }

  // ---------------------------------------------------------------------------
  // The store
  // ---------------------------------------------------------------------------

  /** The module-level state of the source, with local storage beside it. */
  class Store {
    var theme: string
    var modelKey: string
    var mode: string
    var histories: map<string, seq<ChatMessage>>
    var storage: map<string, string>

    function State(): Snapshot
      reads this
    {
      Snapshot(theme, modelKey, mode, histories, storage)
    }

    ghost predicate Valid()
      reads this
    {
      Good(State())
    }

    /** The initial state, over whatever local storage holds, before anything is loaded. */
    constructor(initialStorage: map<string, string>)
      ensures Valid()
      ensures theme == "matrix" && modelKey == "openai:gpt-5" && mode == "basic"
      ensures forall m :: IsMode(m) ==> History(State(), m) == []
      ensures storage == initialStorage
    {
      theme := "matrix";
      modelKey := "openai:gpt-5";
      mode := "basic";
      histories := map["doctor" := [], "therapist" := [], "web" := [], "basic" := [],
                       "excuse" := [], "grammar" := [], "eli5" := []];
      storage := initialStorage;
    }

    /** `loadPersisted()`. */
    method LoadPersisted()
      requires Valid()
      modifies this
      ensures State() == Loaded(old(State())) && Valid()
    {
      if ThemeKey in storage && IsTheme(storage[ThemeKey]) {
        theme := storage[ThemeKey];
      }
      if ModelKey in storage && storage[ModelKey] != "" {
        modelKey := storage[ModelKey];
      }
      if ModeKey in storage && IsMode(storage[ModeKey]) {
        mode := storage[ModeKey];
      }
    }

    /** `setTheme(theme)`. */
    method SetTheme(t: string)
      requires Valid()
      modifies this
      ensures State() == WithTheme(old(State()), t) && Valid()
    {
      if !IsTheme(t) {
        return;
      }
      theme := t;
      storage := storage[ThemeKey := t];
    }

    /** `setModelKey(modelKey)`. */
    method SetModelKey(key: string)
      requires Valid()
      modifies this
      ensures State() == WithModelKey(old(State()), key) && Valid()
    {
      modelKey := key;
      storage := storage[ModelKey := key];
    }

    /** `setMode(mode)`. */
    method SetMode(m: string)
      requires Valid()
      modifies this
      ensures State() == WithMode(old(State()), m) && Valid()
    {
      if !IsMode(m) {
        return;
      }
      mode := m;
      storage := storage[ModeKey := m];
    }

    /** `getChatHistory(mode)`: a copy of the mode's messages. */
    function GetChatHistory(m: string): (h: seq<ChatMessage>)
      reads this
      ensures h == History(State(), m)
    {
      if m in histories then histories[m] else []
    }

    /** `appendChatMessage(mode, message)`. */
    method AppendChatMessage(m: string, message: ChatMessage)
      requires Valid()
      modifies this
      ensures State() == Appended(old(State()), m, message) && Valid()
    {
      if !IsMode(m) {
        return;
      }
      var arr := histories[m];
      histories := histories[m := arr + [ChatMessage(message.role, Cut(message.content))]];
    }

    /** `clearChat(mode)`. */
    method ClearChat(m: string)
      requires Valid()
      modifies this
      ensures State() == Cleared(old(State()), m) && Valid()
    {
      if !IsMode(m) {
        return;
      }
      histories := histories[m := []];
    }

    /** `getLocation()`. */
    function GetLocation(): (string, string)
      reads this
    {
      LocationOf(State())
    }

    /** `setLocation({city, state})`. */
    method SetLocation(city: string, state: string)
      requires Valid()
      modifies this
      ensures State() == WithLocation(old(State()), city, state) && Valid()
    {
      var c := Trim(city);
      var s := Upper(Trim(state));
      storage := Put(storage, CityKey, c);
      storage := Put(storage, StateKey, s);
    }
  }
}
