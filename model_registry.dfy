/**
 * The model registry (app/scripts/services/modelRegistry.js): a constant list of models,
 * lookup by key with a fallback to the first entry, and the per-field accessors.
 */
module ModelRegistry {
  import opened Wrappers

  datatype Tier = High | Medium

  /** One registry entry; `caption` is the source's `label` field (`label` is a Dafny keyword). */
  datatype ModelEntry = ModelEntry(key: string, caption: string, provider: string, model: string, tier: Tier)

  /** `MODELS`, in declaration order. */
  const Models: seq<ModelEntry> := [
    ModelEntry("openai:gpt-5", "GPT-5 (OpenAI)", "openai", "gpt-5", High),
    ModelEntry("deepseek:reasoner", "DeepSeek Reasoner", "deepseek", "deepseek-reasoner", High),
    ModelEntry("deepseek:chat", "DeepSeek Chat", "deepseek", "deepseek-chat", Medium)
  ]

  /** No two entries share a key. */
  predicate UniqueKeys(ms: seq<ModelEntry>)
  {
    forall i, j :: 0 <= i < j < |ms| ==> ms[i].key != ms[j].key
  }

  /** `getModels()`: a copy of every entry, in order, with distinct keys. */
  function GetModels(): (r: seq<ModelEntry>)
    ensures |r| == 3 && UniqueKeys(r)
    ensures forall i :: 0 <= i < |r| ==> r[i] == Models[i]
  {
    Models
  }

  /** `ms.find(m => m.key === key)`: the first entry with that key, if there is one. */
  function Find(ms: seq<ModelEntry>, key: string): (r: Option<ModelEntry>)
    ensures r.None? <==> forall i :: 0 <= i < |ms| ==> ms[i].key != key
    ensures r.Some? ==> exists i :: 0 <= i < |ms| && ms[i] == r.value && r.value.key == key &&
                          forall j :: 0 <= j < i ==> ms[j].key != key
  {
    if ms == [] then None
    else if ms[0].key == key then Some(ms[0])
    else
      var rest := Find(ms[1..], key);
      assert forall i :: 1 <= i < |ms| ==> ms[1..][i - 1] == ms[i];
      rest
  }

  /** `findByKey(key)`: the entry with that key, or the first entry when there is none. */
  function FindByKey(key: string): (r: ModelEntry)
    ensures r in Models
    ensures r.key == key || (r == Models[0] && forall i :: 0 <= i < |Models| ==> Models[i].key != key)
  {
    Find(Models, key).GetOr(Models[0])
  }

  /** `getDefaultModelKey()`. */
  function DefaultModelKey(): (r: string)
    ensures r == Models[0].key
  {
    "openai:gpt-5"
  }

  function LabelFor(key: string): string { FindByKey(key).caption }
  function ProviderFor(key: string): string { FindByKey(key).provider }
  function ModelIdFor(key: string): string { FindByKey(key).model }
  function TierFor(key: string): Tier { FindByKey(key).tier }

  /** Looking up an entry's own key finds that entry, because the keys are distinct. */
  lemma {:induction false} FindByKeyOwnKey(i: nat)
    requires i < |Models|
    ensures FindByKey(Models[i].key) == Models[i]
  {
    var r := FindByKey(Models[i].key);
    assert r.key == Models[i].key;
    var j :| 0 <= j < |Models| && Models[j] == r;
    assert Models[j].key == Models[i].key;
    assert UniqueKeys(GetModels());
    assert j == i;
  }

  /** Every accessor reads its field off the entry `findByKey` returns; an unknown key reads the GPT-5 entry. */
  lemma AccessorsOnUnknownKey(key: string)
    requires forall i :: 0 <= i < |Models| ==> Models[i].key != key
    ensures LabelFor(key) == "GPT-5 (OpenAI)" && ProviderFor(key) == "openai"
    ensures ModelIdFor(key) == "gpt-5" && TierFor(key) == High
  {
  }

  /** The default key looks up the first entry. */
  lemma DefaultKeyFindsFirst()
    ensures FindByKey(DefaultModelKey()) == Models[0]
  {
    FindByKeyOwnKey(0);
  }

  /** The accessors on a registered key read that entry's fields. */
  lemma AccessorsOnKnownKey(i: nat)
    requires i < |Models|
    ensures var k := Models[i].key;
      LabelFor(k) == Models[i].caption && ProviderFor(k) == Models[i].provider
      && ModelIdFor(k) == Models[i].model && TierFor(k) == Models[i].tier
  {
    FindByKeyOwnKey(i);
  }
}
