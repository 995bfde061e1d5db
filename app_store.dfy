/** The state transitions of the application store in src/lib/store.ts. Each
    action returns a new state built from the old one; nothing is updated in
    place. Dates are milliseconds since the epoch. */
module AppStore {
  import opened OrderedMaps

  const HISTORY_LIMIT: nat := 100

  datatype Provider = Gemini | OpenAI | Anthropic

  datatype Gender = Male | Female

  datatype Settings = Settings(provider: Provider, apiKey: string, model: Option<string>)

  /** A `Partial<AISettings>`: a field is `Some` when the patch carries it; a
      carried `model` may itself be `undefined`. */
  datatype SettingsPatch = SettingsPatch(provider: Option<Provider>, apiKey: Option<string>,
                                         model: Option<Option<string>>)

  datatype Character = Character(name: string, gender: Gender, timestamp: int)

  datatype CharacterPatch = CharacterPatch(name: Option<string>, gender: Option<Gender>,
                                           timestamp: Option<int>)

  datatype HistoryItem = HistoryItem(id: int, from: string, to: string, originalText: string,
                                     translatedText: string, timestamp: int,
                                     characters: Option<seq<Character>>, provider: Provider,
                                     model: string)

  datatype AppState = AppState(settings: Settings,
                               sourceText: string, targetText: string,
                               sourceLang: string, targetLang: string,
                               isTranslating: bool, error: Option<string>,
                               history: seq<HistoryItem>, characters: seq<Character>)

  /** The part of the state written to the 'ai-translator-storage' item. */
  datatype PersistedState = PersistedState(settings: Settings, history: seq<HistoryItem>,
                                           characters: seq<Character>)

  const INITIAL: AppState :=
    AppState(Settings(Gemini, "", Some("gemini-pro")), "", "", "en", "es", false, None, [], [])

  // ---------------------------------------------------------------------------
  // Settings

  /** `{ ...settings, ...patch }`. */
  function MergeSettings(s: Settings, p: SettingsPatch): Settings {
    Settings(if p.provider.Some? then p.provider.value else s.provider,
             if p.apiKey.Some? then p.apiKey.value else s.apiKey,
             if p.model.Some? then p.model.value else s.model)
  }

  /** The patch that applies `p` and then `q`: `q`'s fields win. */
  function ThenPatch(p: SettingsPatch, q: SettingsPatch): SettingsPatch {
    SettingsPatch(if q.provider.Some? then q.provider else p.provider,
                  if q.apiKey.Some? then q.apiKey else p.apiKey,
                  if q.model.Some? then q.model else p.model)
  }

  /** `updateSettings`: only the settings change. */
  function UpdateSettings(st: AppState, p: SettingsPatch): (r: AppState)
    ensures r.settings == MergeSettings(st.settings, p) && r.(settings := st.settings) == st
  {
    st.(settings := MergeSettings(st.settings, p))
  }

  /** A field carried by the patch takes the patch's value; every other field
      keeps its old value. */
  lemma MergeIsShallow(s: Settings, p: SettingsPatch)
    ensures p.provider.Some? ==> MergeSettings(s, p).provider == p.provider.value
    ensures p.provider.None? ==> MergeSettings(s, p).provider == s.provider
    ensures p.apiKey.Some? ==> MergeSettings(s, p).apiKey == p.apiKey.value
    ensures p.apiKey.None? ==> MergeSettings(s, p).apiKey == s.apiKey
    ensures p.model.Some? ==> MergeSettings(s, p).model == p.model.value
    ensures p.model.None? ==> MergeSettings(s, p).model == s.model
  {
  }

  /** Two updates in a row are one update with the composed patch; the empty
      patch changes nothing; applying a patch twice is applying it once. */
  lemma MergeComposes(s: Settings, p: SettingsPatch, q: SettingsPatch)
    ensures MergeSettings(MergeSettings(s, p), q) == MergeSettings(s, ThenPatch(p, q))
    ensures MergeSettings(s, SettingsPatch(None, None, None)) == s
    ensures MergeSettings(MergeSettings(s, p), p) == MergeSettings(s, p)
  {
  }

  // ---------------------------------------------------------------------------
  // History

  /** `[item, ...history].slice(0, 100)`. */
  function PushHistory(h: seq<HistoryItem>, item: HistoryItem): (r: seq<HistoryItem>)
    ensures |r| == if |h| + 1 < HISTORY_LIMIT then |h| + 1 else HISTORY_LIMIT
    ensures r[0] == item
    ensures forall i :: 1 <= i < |r| ==> r[i] == h[i - 1]
  {
    var whole := [item] + h;
    if |whole| <= HISTORY_LIMIT then whole else whole[..HISTORY_LIMIT]
  }

  /** `addToHistory`: only the history changes. */
  function AddToHistory(st: AppState, item: HistoryItem): (r: AppState)
    ensures r.history == PushHistory(st.history, item) && r.(history := st.history) == st
  {
    st.(history := PushHistory(st.history, item))
  }

  function ClearHistory(st: AppState): (r: AppState)
    ensures r.history == [] && r.(history := st.history) == st
  {
    st.(history := [])
  }

  /** The history after adding `items` one after the other. */
  function AddAllToHistory(h: seq<HistoryItem>, items: seq<HistoryItem>): seq<HistoryItem> {
    if items == [] then h
    else PushHistory(AddAllToHistory(h, items[..|items| - 1]), items[|items| - 1])
  }

  function Reverse<X>(s: seq<X>): (r: seq<X>)
    ensures |r| == |s|
    ensures forall i :: 0 <= i < |s| ==> r[i] == s[|s| - 1 - i]
  {
    if s == [] then [] else [s[|s| - 1]] + Reverse(s[..|s| - 1])
  }

  function Min(a: int, b: int): int {
    if a < b then a else b
  }

  /** Adding several items keeps the newest HISTORY_LIMIT of them and of the
      old history, newest first. */
  lemma {:induction false} AddAllKeepsNewest(h: seq<HistoryItem>, items: seq<HistoryItem>)
    requires |h| <= HISTORY_LIMIT
    ensures var all := Reverse(items) + h;
            AddAllToHistory(h, items) == all[..Min(|all|, HISTORY_LIMIT)]
  {
    if items != [] {
      var init, last := items[..|items| - 1], items[|items| - 1];
      AddAllKeepsNewest(h, init);
      var before := Reverse(init) + h;
      var all := Reverse(items) + h;
      assert all == [last] + before;
      var prev := before[..Min(|before|, HISTORY_LIMIT)];
      var r := PushHistory(prev, last);
      assert |r| == Min(|all|, HISTORY_LIMIT);
      forall i | 0 <= i < |r| ensures r[i] == all[i] {
        if i > 0 {
          assert r[i] == prev[i - 1] == before[i - 1];
        }
      }
    }
  }

  /** Starting from the initial state, the history after any sequence of
      `addToHistory` calls is the latest HISTORY_LIMIT items, newest first. */
  lemma HistoryFromInitial(items: seq<HistoryItem>)
    ensures AddAllToHistory(INITIAL.history, items)
            == Reverse(items)[..Min(|items|, HISTORY_LIMIT)]
  {
    AddAllKeepsNewest(INITIAL.history, items);
    assert Reverse(items) + INITIAL.history == Reverse(items);
  }

  /** The history never holds more than HISTORY_LIMIT items. */
  lemma HistoryBounded(h: seq<HistoryItem>, items: seq<HistoryItem>)
    requires |h| <= HISTORY_LIMIT
    ensures |AddAllToHistory(h, items)| <= HISTORY_LIMIT
    ensures items != [] ==> AddAllToHistory(h, items)[0] == items[|items| - 1]
  {
    AddAllKeepsNewest(h, items);
  }

  // ---------------------------------------------------------------------------
  // Characters

  /** `addCharacter`: only the characters change. */
  function AddCharacter(st: AppState, c: Character): (r: AppState)
    ensures r.(characters := st.characters) == st
  {
    st.(characters := st.characters + [c])
  }

  /** `characters.filter(c => c.name !== name)`. */
  function WithoutName(cs: seq<Character>, name: string): (r: seq<Character>)
    ensures forall c :: c in r <==> c in cs && c.name != name
    ensures |r| <= |cs|
  {
    if cs == [] then []
    else (if cs[0].name != name then [cs[0]] else []) + WithoutName(cs[1..], name)
  }

  /** `removeCharacter`: only the characters change. */
  function RemoveCharacter(st: AppState, name: string): (r: AppState)
    ensures r.characters == WithoutName(st.characters, name)
    ensures r.(characters := st.characters) == st
  {
    st.(characters := WithoutName(st.characters, name))
  }

  /** `{ ...c, ...patch }`. */
  function MergeCharacter(c: Character, p: CharacterPatch): Character {
    Character(if p.name.Some? then p.name.value else c.name,
              if p.gender.Some? then p.gender.value else c.gender,
              if p.timestamp.Some? then p.timestamp.value else c.timestamp)
  }

  /** `characters.map(c => c.name === name ? { ...c, ...patch } : c)`. */
  function UpdateNamed(cs: seq<Character>, name: string, p: CharacterPatch): (r: seq<Character>)
    ensures |r| == |cs|
    ensures forall i :: 0 <= i < |cs| ==>
              r[i] == if cs[i].name == name then MergeCharacter(cs[i], p) else cs[i]
  {
    if cs == [] then []
    else [if cs[0].name == name then MergeCharacter(cs[0], p) else cs[0]]
         + UpdateNamed(cs[1..], name, p)
  }

  /** `updateCharacter`: only the characters change. */
  function UpdateCharacter(st: AppState, name: string, p: CharacterPatch): (r: AppState)
    ensures r.characters == UpdateNamed(st.characters, name, p)
    ensures r.(characters := st.characters) == st
  {
    st.(characters := UpdateNamed(st.characters, name, p))
  }

  /** Adding appends at the end and leaves the earlier characters as they
      were. */
  lemma AddCharacterAppends(st: AppState, c: Character)
    ensures var cs := AddCharacter(st, c).characters;
            |cs| == |st.characters| + 1 && cs[|st.characters|] == c
            && cs[..|st.characters|] == st.characters
  {
    assert (st.characters + [c])[..|st.characters|] == st.characters;
  }

  /** The filter distributes over concatenation, so it keeps the order of the
      characters it keeps. */
  lemma {:induction false} WithoutNameConcat(a: seq<Character>, b: seq<Character>, name: string)
    ensures WithoutName(a + b, name) == WithoutName(a, name) + WithoutName(b, name)
  {
    if a != [] {
      assert (a + b)[1..] == a[1..] + b;
      WithoutNameConcat(a[1..], b, name);
    } else {
      assert a + b == b;
    }
  }

  /** A list without the name is left as it is. */
  lemma {:induction false} WithoutAbsentName(cs: seq<Character>, name: string)
    requires forall i :: 0 <= i < |cs| ==> cs[i].name != name
    ensures WithoutName(cs, name) == cs
  {
    if cs != [] {
      WithoutAbsentName(cs[1..], name);
    }
  }

  /** Removing a name twice is removing it once; removing a just-added
      character's name is removing it from the list before the add. */
  lemma RemoveCharacterProperties(st: AppState, c: Character, name: string)
    ensures RemoveCharacter(RemoveCharacter(st, name), name) == RemoveCharacter(st, name)
    ensures RemoveCharacter(AddCharacter(st, c), c.name) == RemoveCharacter(st, c.name)
  {
    var r := WithoutName(st.characters, name);
    forall i | 0 <= i < |r| ensures r[i].name != name {
      assert r[i] in r;
    }
    WithoutAbsentName(r, name);
    WithoutNameConcat(st.characters, [c], c.name);
    assert WithoutName([c], c.name) == [];
  }

  /** The number of characters with that name, which `removeCharacter`
      drops. */
  function CountNamed(cs: seq<Character>, name: string): nat {
    if cs == [] then 0 else (if cs[0].name == name then 1 else 0) + CountNamed(cs[1..], name)
  }

  lemma {:induction false} WithoutNameCount(cs: seq<Character>, name: string)
    ensures |WithoutName(cs, name)| == |cs| - CountNamed(cs, name)
  {
    if cs != [] {
      WithoutNameCount(cs[1..], name);
    }
  }

  /** An update whose patch keeps the name may be followed by another on the
      same name as one update with both patches; the empty patch changes
      nothing. */
  lemma {:induction false} UpdateComposes(cs: seq<Character>, name: string,
                                          p: CharacterPatch, q: CharacterPatch)
    requires p.name.None? || p.name == Some(name)
    ensures UpdateNamed(UpdateNamed(cs, name, p), name, q)
            == UpdateNamed(cs, name, CharacterPatch(if q.name.Some? then q.name else p.name,
                                                    if q.gender.Some? then q.gender else p.gender,
                                                    if q.timestamp.Some? then q.timestamp else p.timestamp))
    ensures UpdateNamed(cs, name, CharacterPatch(None, None, None)) == cs
  {
    if cs != [] {
      UpdateComposes(cs[1..], name, p, q);
    }
  }

  // ---------------------------------------------------------------------------
  // Transient fields and persistence

  function SetSourceText(st: AppState, text: string): AppState { st.(sourceText := text) }
  function SetTargetText(st: AppState, text: string): AppState { st.(targetText := text) }
  function SetSourceLang(st: AppState, lang: string): AppState { st.(sourceLang := lang) }
  function SetTargetLang(st: AppState, lang: string): AppState { st.(targetLang := lang) }
  function SetIsTranslating(st: AppState, loading: bool): AppState { st.(isTranslating := loading) }
  function SetError(st: AppState, error: Option<string>): AppState { st.(error := error) }

  /** The state as written to storage. */
  function Partialize(st: AppState): PersistedState {
    PersistedState(st.settings, st.history, st.characters)
  }

  /** Only settings, history and characters are persisted: the transient
      setters never change what is written, and two states that agree on those
      three parts persist the same. */
  lemma TransientNotPersisted(st: AppState, text: string, loading: bool, error: Option<string>,
                              other: AppState)
    ensures Partialize(SetSourceText(st, text)) == Partialize(st)
    ensures Partialize(SetTargetText(st, text)) == Partialize(st)
    ensures Partialize(SetSourceLang(st, text)) == Partialize(st)
    ensures Partialize(SetTargetLang(st, text)) == Partialize(st)
    ensures Partialize(SetIsTranslating(st, loading)) == Partialize(st)
    ensures Partialize(SetError(st, error)) == Partialize(st)
    ensures Partialize(st) == Partialize(other)
            <==> st.settings == other.settings && st.history == other.history
                 && st.characters == other.characters
  {
  }
}
