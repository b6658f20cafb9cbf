/** Sorting a model's parameters into weight-decay groups (set_weight_decay of training/utils.py). */
module WeightDecay {
  import opened Wrappers

  datatype Param = Param(id: nat, name: string, requiresGrad: bool)

  /** A module with its own parameters and named children. */
  datatype Layer = Layer(isNorm: bool, params: seq<Param>, children: seq<Child>)

  datatype Child = Child(name: string, layer: Layer)

  /** The decay settings: a default, one for normalisation layers or none, and named overrides in order. */
  datatype Settings = Settings(decay: real, normDecay: Option<real>, custom: seq<(string, real)>)
  {
    function Keys(): seq<string> {
      seq(|custom|, i requires 0 <= i < |custom| => custom[i].0)
    }
  }

  datatype Group = Group(params: seq<nat>, decay: Option<real>)

  // ---------- where a parameter belongs ----------

  function Join(prefix: string, name: string): string {
    if prefix != "" then prefix + "." + name else name
  }

  /** What a custom key is compared with: the dotted path for a key with a dot, the bare name otherwise. */
  function Target(prefix: string, name: string, key: string): string {
    if prefix != "" && '.' in key then prefix + "." + name else name
  }

  /** The group of a parameter: the first custom key that matches, else norm, else other. */
  function KeyOf(keys: seq<string>, normSet: bool, isNorm: bool, prefix: string, name: string): string {
    if keys == [] then if normSet && isNorm then "norm" else "other"
    else if keys[0] == Target(prefix, name, keys[0]) then keys[0]
    else KeyOf(keys[1..], normSet, isNorm, prefix, name)
  }

  /** A trainable parameter and its group. */
  type Entry = (string, nat)

  /** The first n own parameters of a module. */
  function OwnEntries(s: Settings, layer: Layer, prefix: string, n: nat): seq<Entry>
    requires n <= |layer.params|
  {
    if n == 0 then []
    else
      var p := layer.params[n - 1];
      OwnEntries(s, layer, prefix, n - 1)
      + if p.requiresGrad then [(KeyOf(s.Keys(), s.normDecay.Some?, layer.isNorm, prefix, p.name), p.id)] else []
  }

  /** The trainable parameters of a module tree with their groups: a module before its children. */
  function Entries(s: Settings, layer: Layer, prefix: string): seq<Entry>
    decreases layer, 0
  {
    OwnEntries(s, layer, prefix, |layer.params|) + ChildEntries(s, layer, prefix, |layer.children|)
  }

  function ChildEntries(s: Settings, layer: Layer, prefix: string, n: nat): seq<Entry>
    requires n <= |layer.children|
    decreases layer, 0, n
  {
    if n == 0 then []
    else
      var c := layer.children[n - 1];
      ChildEntries(s, layer, prefix, n - 1) + Entries(s, c.layer, Join(prefix, c.name))
  }

  lemma EntriesAre(s: Settings, layer: Layer, prefix: string)
    ensures Entries(s, layer, prefix)
         == OwnEntries(s, layer, prefix, |layer.params|) + ChildEntries(s, layer, prefix, |layer.children|)
  {
  }

  /** The ids filed under one key, in order. */
  function Filed(entries: seq<Entry>, key: string): seq<nat> {
    if entries == [] then []
    else Filed(entries[..|entries| - 1], key)
         + if entries[|entries| - 1].0 == key then [entries[|entries| - 1].1] else []
  }

  lemma {:induction false} FiledAppend(a: seq<Entry>, b: seq<Entry>, key: string)
    ensures Filed(a + b, key) == Filed(a, key) + Filed(b, key)
  {
    if b == [] {
      assert a + b == a;
    } else {
      assert (a + b)[..|a + b| - 1] == a + b[..|b| - 1];
      FiledAppend(a, b[..|b| - 1], key);
    }
  }

  /** Appending one entry to its list. */
  function File(params: map<string, seq<nat>>, e: Entry): map<string, seq<nat>> {
    if e.0 in params then params[e.0 := params[e.0] + [e.1]] else params
  }

  function FileAll(params: map<string, seq<nat>>, entries: seq<Entry>): map<string, seq<nat>> {
    if entries == [] then params else File(FileAll(params, entries[..|entries| - 1]), entries[|entries| - 1])
  }

  lemma {:induction false} FileAllAppend(params: map<string, seq<nat>>, a: seq<Entry>, b: seq<Entry>)
    ensures FileAll(params, a + b) == FileAll(FileAll(params, a), b)
  {
    if b == [] {
      assert a + b == a;
    } else {
      assert (a + b)[..|a + b| - 1] == a + b[..|b| - 1];
      FileAllAppend(params, a, b[..|b| - 1]);
    }
  }

  /** Filing a list of entries appends to each key what belongs to it. */
  lemma {:induction false} FileAllIsFiled(params: map<string, seq<nat>>, entries: seq<Entry>)
    ensures FileAll(params, entries).Keys == params.Keys
    ensures forall k :: k in params ==> FileAll(params, entries)[k] == params[k] + Filed(entries, k)
  {
    if entries != [] {
      FileAllIsFiled(params, entries[..|entries| - 1]);
    }
  }

  // ---------- the dictionaries ----------

  /** The keys in insertion order. */
  function KeyOrder(keys: seq<string>): seq<string> {
    if keys == [] then ["other", "norm"]
    else
      var before := KeyOrder(keys[..|keys| - 1]);
      if keys[|keys| - 1] in before then before else before + [keys[|keys| - 1]]
  }

  lemma {:induction false} KeyOrderProperties(keys: seq<string>)
    ensures "other" in KeyOrder(keys) && "norm" in KeyOrder(keys)
    ensures forall k :: k in keys ==> k in KeyOrder(keys)
    ensures forall i, j :: 0 <= i < j < |KeyOrder(keys)| ==> KeyOrder(keys)[i] != KeyOrder(keys)[j]
  {
    if keys != [] {
      KeyOrderProperties(keys[..|keys| - 1]);
      assert keys == keys[..|keys| - 1] + [keys[|keys| - 1]];
    }
  }

  /** The decay of a key after the first n overrides: the last one given for it. */
  function DecayOf(s: Settings, n: nat, key: string): Option<real>
    requires n <= |s.custom|
  {
    if n == 0 then if key == "norm" then s.normDecay else Some(s.decay)
    else if s.custom[n - 1].0 == key then Some(s.custom[n - 1].1)
    else DecayOf(s, n - 1, key)
  }

  function EmptyGroups(order: seq<string>): map<string, seq<nat>> {
    map k | k in order :: []
  }

  function DecayTable(s: Settings, n: nat, order: seq<string>): map<string, Option<real>>
    requires n <= |s.custom|
  {
    map k | k in order :: DecayOf(s, n, k)
  }

  lemma FirstKeys(s: Settings)
    ensures KeyOrder([]) == ["other", "norm"]
    ensures EmptyGroups(["other", "norm"]) == map["other" := [], "norm" := []]
    ensures DecayTable(s, 0, ["other", "norm"]) == map["other" := Some(s.decay), "norm" := s.normDecay]
  {
  }

  /** One more override adds its key at the end, if it is new, and sets its decay. */
  lemma NextKey(s: Settings, i: nat, order: seq<string>)
    requires i < |s.custom| && order == KeyOrder(s.Keys()[..i])
    ensures var key := s.custom[i].0;
      var order' := if key in order then order else order + [key];
      && KeyOrder(s.Keys()[..i + 1]) == order'
      && EmptyGroups(order') == EmptyGroups(order)[key := []]
      && DecayTable(s, i + 1, order') == DecayTable(s, i, order)[key := Some(s.custom[i].1)]
  {
    assert s.Keys()[..i + 1][..i] == s.Keys()[..i];
  }

  /** The custom keys are known to the dictionaries. */
  ghost predicate KnowsKeys(s: Settings, params: map<string, seq<nat>>) {
    "other" in params && "norm" in params && forall k :: k in s.Keys() ==> k in params
  }

  lemma {:induction false} KeyOfKnown(keys: seq<string>, normSet: bool, isNorm: bool, prefix: string, name: string)
    ensures var k := KeyOf(keys, normSet, isNorm, prefix, name); k in keys || k == "norm" || k == "other"
  {
    if keys != [] && keys[0] != Target(prefix, name, keys[0]) {
      KeyOfKnown(keys[1..], normSet, isNorm, prefix, name);
    }
  }

  // ---------- the routine ----------

  /** The dictionaries of the call; `order` is the insertion order of their keys. */
  class Grouping {
    const settings: Settings
    var order: seq<string>
    var params: map<string, seq<nat>>
    var decays: map<string, Option<real>>

    constructor (settings: Settings)
      ensures this.settings == settings && order == KeyOrder(settings.Keys())
      ensures params == EmptyGroups(order) && decays == DecayTable(settings, |settings.custom|, order)
    {
      hide KeyOrder, DecayOf;
      this.settings := settings;
      FirstKeys(settings);
      order := ["other", "norm"];
      params := map["other" := [], "norm" := []];
      decays := map["other" := Some(settings.decay), "norm" := settings.normDecay];
      new;
      for i := 0 to |settings.custom|
        invariant order == KeyOrder(settings.Keys()[..i])
        invariant params == EmptyGroups(order) && decays == DecayTable(settings, i, order)
      {
        var (key, decay) := settings.custom[i];
        NextKey(settings, i, order);
        if key !in params {
          order := order + [key];
        }
        params := params[key := []];
        decays := decays[key := Some(decay)];
      }
      assert settings.Keys()[..|settings.custom|] == settings.Keys();
    }

    /** Files the trainable parameters of a module tree, the module's own first. */
    method AddParams(layer: Layer, prefix: string)
      requires KnowsKeys(settings, params)
      modifies `params
      ensures params == FileAll(old(params), Entries(settings, layer, prefix))
      decreases layer
    {
      hide FileAll, Entries, OwnEntries;
      ghost var start := params;
      AddOwnParams(layer, prefix);
      ghost var own := OwnEntries(settings, layer, prefix, |layer.params|);
      assert own + ChildEntries(settings, layer, prefix, 0) == own;
      for i := 0 to |layer.children|
        invariant params == FileAll(start, own + ChildEntries(settings, layer, prefix, i)) && params.Keys == start.Keys
      {
        var c := layer.children[i];
        ghost var sofar := own + ChildEntries(settings, layer, prefix, i);
        ghost var more := Entries(settings, c.layer, Join(prefix, c.name));
        AddParams(c.layer, Join(prefix, c.name));
        assert own + ChildEntries(settings, layer, prefix, i + 1) == sofar + more;
        FileAllAppend(start, sofar, more);
        FileAllIsFiled(FileAll(start, sofar), more);
      }
      EntriesAre(settings, layer, prefix);
    }

    /** Files the own parameters of a module. */
    method AddOwnParams(layer: Layer, prefix: string)
      requires KnowsKeys(settings, params)
      modifies `params
      ensures params == FileAll(old(params), OwnEntries(settings, layer, prefix, |layer.params|))
      ensures params.Keys == old(params.Keys)
    {
      for i := 0 to |layer.params|
        invariant params == FileAll(old(params), OwnEntries(settings, layer, prefix, i)) &&
          params.Keys == old(params.Keys)
      {
        AddOwn(layer, prefix, i);
      }
    }

    /** Files one own parameter of a module. */
    method AddOwn(layer: Layer, prefix: string, i: nat)
      requires KnowsKeys(settings, params) && i < |layer.params|
      modifies `params
      ensures forall start :: old(params) == FileAll(start, OwnEntries(settings, layer, prefix, i)) ==>
        params == FileAll(start, OwnEntries(settings, layer, prefix, i + 1))
      ensures params.Keys == old(params.Keys)
    {
      var p := layer.params[i];
      ghost var before := OwnEntries(settings, layer, prefix, i);
      if !p.requiresGrad {
        assert before + [] == before;
        return;
      }
      var key := FindKey(layer.isNorm, prefix, p.name);
      params := params[key := params[key] + [p.id]];
      ghost var e := (key, p.id);
      assert (before + [e])[..|before + [e]| - 1] == before;
    }

    method FindKey(isNorm: bool, prefix: string, name: string) returns (key: string)
      requires KnowsKeys(settings, params)
      ensures key in params
      ensures key == KeyOf(settings.Keys(), settings.normDecay.Some?, isNorm, prefix, name)
    {
      ghost var normSet := settings.normDecay.Some?;
      KeyOfKnown(settings.Keys(), normSet, isNorm, prefix, name);
      var customKeys := settings.Keys();
      for n := 0 to |customKeys|
        invariant KeyOf(customKeys, normSet, isNorm, prefix, name)
               == KeyOf(customKeys[n..], normSet, isNorm, prefix, name)
      {
        if customKeys[n] == Target(prefix, name, customKeys[n]) {
          return customKeys[n];
        }
      }
      key := if settings.normDecay.Some? && isNorm then "norm" else "other";
    }

    /** The non-empty lists with their decays, in key order. */
    method Groups() returns (groups: seq<Group>)
      requires forall k :: k in order ==> k in params && k in decays
      ensures groups == NonEmpty(order, params, decays)
    {
      groups := [];
      for i := 0 to |order|
        invariant groups == NonEmpty(order[..i], params, decays)
      {
        assert order[..i + 1][..i] == order[..i];
        if |params[order[i]]| > 0 {
          groups := groups + [Group(params[order[i]], decays[order[i]])];
        }
      }
      assert order[..|order|] == order;
    }
  }

  function NonEmpty(order: seq<string>, params: map<string, seq<nat>>, decays: map<string, Option<real>>): seq<Group>
    requires forall k :: k in order ==> k in params && k in decays
  {
    if order == [] then []
    else
      var k := order[|order| - 1];
      NonEmpty(order[..|order| - 1], params, decays) + if |params[k]| > 0 then [Group(params[k], decays[k])] else []
  }

  method SetWeightDecay(model: Layer, settings: Settings) returns (groups: seq<Group>)
    ensures groups == GroupsOf(model, settings)
  {
    hide Entries, FileAll, KeyOrder, NonEmpty, DecayOf, Filed;
    var g := new Grouping(settings);
    KeyOrderProperties(settings.Keys());
    g.AddParams(model, "");
    FileAllIsFiled(EmptyGroups(g.order), Entries(settings, model, ""));
    groups := g.Groups();
  }

  /** What the routine returns. */
  function GroupsOf(model: Layer, settings: Settings): seq<Group> {
    var order := KeyOrder(settings.Keys());
    FileAllIsFiled(EmptyGroups(order), Entries(settings, model, ""));
    NonEmpty(order, FileAll(EmptyGroups(order), Entries(settings, model, "")),
             DecayTable(settings, |settings.custom|, order))
  }

  // ---------- what the groups are ----------

  /** The ids of the trainable parameters of a module tree, whatever their names. */
  function TrainableIds(layer: Layer): seq<nat>
    decreases layer, 0
  {
    OwnIds(layer, |layer.params|) + ChildIds(layer, |layer.children|)
  }

  function OwnIds(layer: Layer, n: nat): seq<nat>
    requires n <= |layer.params|
  {
    if n == 0 then []
    else OwnIds(layer, n - 1) + if layer.params[n - 1].requiresGrad then [layer.params[n - 1].id] else []
  }

  function ChildIds(layer: Layer, n: nat): seq<nat>
    requires n <= |layer.children|
    decreases layer, 0, n
  {
    if n == 0 then [] else ChildIds(layer, n - 1) + TrainableIds(layer.children[n - 1].layer)
  }

  function Ids(entries: seq<Entry>): (ids: seq<nat>)
    ensures |ids| == |entries|
  {
    seq(|entries|, i requires 0 <= i < |entries| => entries[i].1)
  }

  lemma IdsAppend(a: seq<Entry>, b: seq<Entry>)
    ensures Ids(a + b) == Ids(a) + Ids(b)
  {
  }

  lemma {:induction false} OwnEntriesIds(s: Settings, layer: Layer, prefix: string, n: nat)
    requires n <= |layer.params|
    ensures Ids(OwnEntries(s, layer, prefix, n)) == OwnIds(layer, n)
  {
    if n > 0 {
      OwnEntriesIds(s, layer, prefix, n - 1);
      var p := layer.params[n - 1];
      if p.requiresGrad {
        IdsAppend(OwnEntries(s, layer, prefix, n - 1),
                  [(KeyOf(s.Keys(), s.normDecay.Some?, layer.isNorm, prefix, p.name), p.id)]);
      }
    }
  }

  /** The walk visits every trainable parameter once. */
  lemma {:induction false} EntriesIds(s: Settings, layer: Layer, prefix: string)
    ensures Ids(Entries(s, layer, prefix)) == TrainableIds(layer)
    decreases layer, 1
  {
    OwnEntriesIds(s, layer, prefix, |layer.params|);
    ChildEntriesIds(s, layer, prefix, |layer.children|);
    IdsAppend(OwnEntries(s, layer, prefix, |layer.params|), ChildEntries(s, layer, prefix, |layer.children|));
  }

  lemma {:induction false} ChildEntriesIds(s: Settings, layer: Layer, prefix: string, n: nat)
    requires n <= |layer.children|
    ensures Ids(ChildEntries(s, layer, prefix, n)) == ChildIds(layer, n)
    decreases layer, 0, n
  {
    hide Entries, TrainableIds, Ids, Join;
    if n > 0 {
      var c := layer.children[n - 1];
      ChildEntriesIds(s, layer, prefix, n - 1);
      EntriesIds(s, c.layer, Join(prefix, c.name));
      IdsAppend(ChildEntries(s, layer, prefix, n - 1), Entries(s, c.layer, Join(prefix, c.name)));
    }
  }

  /** An id is filed under a key exactly when an entry says so. */
  lemma {:induction false} FiledMember(entries: seq<Entry>, key: string, id: nat)
    ensures id in Filed(entries, key) <==> (key, id) in entries
  {
    if entries != [] {
      FiledMember(entries[..|entries| - 1], key, id);
      assert entries == entries[..|entries| - 1] + [entries[|entries| - 1]];
    }
  }

  /** All ids in a list of groups, with multiplicity. */
  function Members(groups: seq<Group>): multiset<nat> {
    if groups == [] then multiset{}
    else Members(groups[..|groups| - 1]) + multiset(groups[|groups| - 1].params)
  }

  lemma MembersPush(groups: seq<Group>, g: Group)
    ensures Members(groups + [g]) == Members(groups) + multiset(g.params)
  {
  }

  /** The ids filed under the keys of a list, with multiplicity. */
  function FiledUnder(entries: seq<Entry>, order: seq<string>): multiset<nat> {
    if order == [] then multiset{}
    else FiledUnder(entries, order[..|order| - 1]) + multiset(Filed(entries, order[|order| - 1]))
  }

  /** The dictionary lists are what was filed. */
  ghost predicate HoldsFiled(order: seq<string>, params: map<string, seq<nat>>, entries: seq<Entry>) {
    forall k :: k in order ==> k in params && params[k] == Filed(entries, k)
  }

  lemma {:induction false} NonEmptyMembers(order: seq<string>, params: map<string, seq<nat>>,
                                           decays: map<string, Option<real>>, entries: seq<Entry>)
    requires (forall k :: k in order ==> k in params && k in decays) && HoldsFiled(order, params, entries)
    ensures Members(NonEmpty(order, params, decays)) == FiledUnder(entries, order)
  {
    if order != [] {
      var init, k := order[..|order| - 1], order[|order| - 1];
      assert k in order && forall x :: x in init ==> x in order;
      NonEmptyMembers(init, params, decays, entries);
      if |params[k]| > 0 {
        MembersPush(NonEmpty(init, params, decays), Group(params[k], decays[k]));
      } else {
        assert NonEmpty(init, params, decays) + [] == NonEmpty(init, params, decays);
      }
    }
  }

  /** Adding one entry adds its id once: its key is in the list once. */
  lemma {:induction false} FiledUnderPush(entries: seq<Entry>, e: Entry, order: seq<string>)
    requires forall i, j :: 0 <= i < j < |order| ==> order[i] != order[j]
    ensures FiledUnder(entries + [e], order)
         == FiledUnder(entries, order) + (if e.0 in order then multiset{e.1} else multiset{})
  {
    if order != [] {
      var init, k := order[..|order| - 1], order[|order| - 1];
      assert order == init + [k];
      FiledUnderPush(entries, e, init);
      assert (entries + [e])[..|entries + [e]| - 1] == entries;
    }
  }

  /** Filing under distinct keys that cover every entry loses nothing and repeats nothing. */
  lemma {:induction false} FiledUnderAll(entries: seq<Entry>, order: seq<string>)
    requires forall i, j :: 0 <= i < j < |order| ==> order[i] != order[j]
    requires forall e :: e in entries ==> e.0 in order
    ensures FiledUnder(entries, order) == multiset(Ids(entries))
  {
    if entries == [] {
      NothingFiled(order);
    } else {
      var init, e := entries[..|entries| - 1], entries[|entries| - 1];
      assert entries == init + [e];
      assert forall x :: x in init ==> x in entries;
      FiledUnderAll(init, order);
      FiledUnderPush(init, e, order);
      IdsAppend(init, [e]);
      assert Ids([e]) == [e.1];
    }
  }

  lemma {:induction false} NothingFiled(order: seq<string>)
    ensures FiledUnder([], order) == multiset{}
  {
    if order != [] {
      NothingFiled(order[..|order| - 1]);
    }
  }

  /** Every entry's key is one of the dictionary's. */
  lemma {:induction false} OwnEntriesKnown(s: Settings, layer: Layer, prefix: string, n: nat)
    requires n <= |layer.params|
    ensures forall e :: e in OwnEntries(s, layer, prefix, n) ==> e.0 in KeyOrder(s.Keys())
  {
    if n > 0 {
      OwnEntriesKnown(s, layer, prefix, n - 1);
      KeyOrderProperties(s.Keys());
      KeyOfKnown(s.Keys(), s.normDecay.Some?, layer.isNorm, prefix, layer.params[n - 1].name);
    }
  }

  lemma {:induction false} EntriesKnown(s: Settings, layer: Layer, prefix: string)
    ensures forall e :: e in Entries(s, layer, prefix) ==> e.0 in KeyOrder(s.Keys())
    decreases layer, 1
  {
    hide KeyOrder;
    OwnEntriesKnown(s, layer, prefix, |layer.params|);
    ChildEntriesKnown(s, layer, prefix, |layer.children|);
  }

  lemma {:induction false} ChildEntriesKnown(s: Settings, layer: Layer, prefix: string, n: nat)
    requires n <= |layer.children|
    ensures forall e :: e in ChildEntries(s, layer, prefix, n) ==> e.0 in KeyOrder(s.Keys())
    decreases layer, 0, n
  {
    hide KeyOrder;
    if n > 0 {
      ChildEntriesKnown(s, layer, prefix, n - 1);
      EntriesKnown(s, layer.children[n - 1].layer, Join(prefix, layer.children[n - 1].name));
    }
  }

  /** The dictionary after the walk. */
  lemma WalkFiles(model: Layer, s: Settings)
    ensures var order, entries := KeyOrder(s.Keys()), Entries(s, model, "");
      HoldsFiled(order, FileAll(EmptyGroups(order), entries), entries)
  {
    FileAllIsFiled(EmptyGroups(KeyOrder(s.Keys())), Entries(s, model, ""));
  }

  /** Conservation: the groups together hold every trainable parameter of the model, each as often as the model does. */
  lemma NothingLostOrRepeated(model: Layer, s: Settings)
    ensures Members(GroupsOf(model, s)) == multiset(TrainableIds(model))
  {
    var order, entries := KeyOrder(s.Keys()), Entries(s, model, "");
    WalkFiles(model, s);
    KeyOrderProperties(s.Keys());
    EntriesKnown(s, model, "");
    EntriesIds(s, model, "");
    FileAllIsFiled(EmptyGroups(order), entries);
    NonEmptyMembers(order, FileAll(EmptyGroups(order), entries), DecayTable(s, |s.custom|, order), entries);
    FiledUnderAll(entries, order);
  }

  /** No group is empty, and each is all that was filed under one key, with that key's decay. */
  lemma {:induction false} NonEmptyGroups(order: seq<string>, params: map<string, seq<nat>>,
                                          decays: map<string, Option<real>>, i: nat) returns (k: string)
    requires forall x :: x in order ==> x in params && x in decays
    requires i < |NonEmpty(order, params, decays)|
    ensures k in order && params[k] != [] && NonEmpty(order, params, decays)[i] == Group(params[k], decays[k])
  {
    var init := order[..|order| - 1];
    if i < |NonEmpty(init, params, decays)| {
      k := NonEmptyGroups(init, params, decays, i);
    } else {
      k := order[|order| - 1];
    }
  }

  /** The key whose list holds an id names the one group that has it. */
  lemma {:induction false} OneGroup(order: seq<string>, params: map<string, seq<nat>>,
                                    decays: map<string, Option<real>>, k: string, id: nat) returns (g: nat)
    requires forall x :: x in order ==> x in params && x in decays
    requires forall i, j :: 0 <= i < j < |order| ==> order[i] != order[j]
    requires k in order && id in params[k] && forall x :: x in order && x != k ==> id !in params[x]
    ensures g < |NonEmpty(order, params, decays)| && NonEmpty(order, params, decays)[g] == Group(params[k], decays[k])
    ensures forall j :: 0 <= j < |NonEmpty(order, params, decays)| && j != g ==>
      id !in NonEmpty(order, params, decays)[j].params
  {
    var init, last := order[..|order| - 1], order[|order| - 1];
    assert order == init + [last];
    if last == k {
      g := |NonEmpty(init, params, decays)|;
      forall j | 0 <= j < g ensures id !in NonEmpty(init, params, decays)[j].params {
        var x := NonEmptyGroups(init, params, decays, j);
      }
    } else {
      g := OneGroup(init, params, decays, k, id);
    }
  }

  /** In a model whose trainable parameters are distinct, each is in exactly one returned group: the one of its first
      matching custom key, else of the normalisation layers, else of the rest, with that key's decay. */
  lemma ExactlyOneGroup(model: Layer, s: Settings, e: Entry) returns (g: nat)
    requires e in Entries(s, model, "") && Distinct(TrainableIds(model))
    ensures g < |GroupsOf(model, s)| && e.1 in GroupsOf(model, s)[g].params
    ensures GroupsOf(model, s)[g] == Group(Filed(Entries(s, model, ""), e.0), DecayOf(s, |s.custom|, e.0))
    ensures forall j :: 0 <= j < |GroupsOf(model, s)| && j != g ==> e.1 !in GroupsOf(model, s)[j].params
  {
    hide Entries, TrainableIds, KeyOrder, FileAll, Filed, NonEmpty, Distinct;
    var order, entries := KeyOrder(s.Keys()), Entries(s, model, "");
    WalkFiles(model, s);
    KeyOrderProperties(s.Keys());
    EntriesKnown(s, model, "");
    EntriesIds(s, model, "");
    FileAllIsFiled(EmptyGroups(order), entries);
    FiledUnderOneKey(entries, e, order);
    g := OneGroup(order, FileAll(EmptyGroups(order), entries), DecayTable(s, |s.custom|, order), e.0, e.1);
  }

  ghost predicate Distinct(ids: seq<nat>) {
    forall i, j :: 0 <= i < j < |ids| ==> ids[i] != ids[j]
  }

  /** With distinct ids, an id is filed under its own key only. */
  lemma FiledUnderOneKey(entries: seq<Entry>, e: Entry, order: seq<string>)
    requires Distinct(Ids(entries)) && e in entries
    ensures e.1 in Filed(entries, e.0)
    ensures forall k :: k in order && k != e.0 ==> e.1 !in Filed(entries, k)
  {
    hide Filed;
    FiledMember(entries, e.0, e.1);
    forall k | k in order && k != e.0 ensures e.1 !in Filed(entries, k) {
      FiledMember(entries, k, e.1);
      if (k, e.1) in entries {
        DistinctEntries(entries, e, (k, e.1));
      }
    }
  }

  lemma DistinctEntries(entries: seq<Entry>, e: Entry, f: Entry)
    requires Distinct(Ids(entries)) && e in entries && f in entries && e.1 == f.1
    ensures e == f
  {
    var i :| 0 <= i < |entries| && entries[i] == e;
    var j :| 0 <= j < |entries| && entries[j] == f;
    assert Ids(entries)[i] == Ids(entries)[j];
  }

  /** The group of a parameter is its first matching custom key; without a match, the layer decides. */
  lemma {:induction false} FirstMatchWins(keys: seq<string>, normSet: bool, isNorm: bool, prefix: string, name: string)
    returns (n: nat)
    ensures n <= |keys| && forall i :: 0 <= i < n ==> keys[i] != Target(prefix, name, keys[i])
    ensures n < |keys| ==> keys[n] == Target(prefix, name, keys[n])
    ensures KeyOf(keys, normSet, isNorm, prefix, name)
         == if n < |keys| then keys[n] else if normSet && isNorm then "norm" else "other"
  {
    if keys == [] || keys[0] == Target(prefix, name, keys[0]) {
      n := 0;
    } else {
      n := FirstMatchWins(keys[1..], normSet, isNorm, prefix, name);
      n := n + 1;
    }
  }

  /** With distinct custom keys other than the two built-in ones, every key keeps its own decay. */
  lemma {:induction false} OwnDecay(s: Settings, n: nat)
    requires n <= |s.custom|
    requires forall i, j :: 0 <= i < j < |s.custom| ==> s.custom[i].0 != s.custom[j].0
    requires forall i :: 0 <= i < |s.custom| ==> s.custom[i].0 != "other" && s.custom[i].0 != "norm"
    ensures DecayOf(s, n, "other") == Some(s.decay) && DecayOf(s, n, "norm") == s.normDecay
    ensures forall i :: 0 <= i < n ==> DecayOf(s, n, s.custom[i].0) == Some(s.custom[i].1)
  {
    if n > 0 {
      OwnDecay(s, n - 1);
    }
  }

  // ---------- keys are matched against dotted paths ----------

  /** A path from the model to a parameter: the names of the modules on the way, then the parameter's own. */
  type Path = seq<string>

  function Dotted(path: Path): string
    requires path != []
  {
    if |path| == 1 then path[0] else path[0] + "." + Dotted(path[1..])
  }

  /** A key with a dot stands for the whole path, one without for the last name alone. */
  predicate Matches(key: string, path: Path)
    requires path != []
  {
    key == if '.' in key then Dotted(path) else path[|path| - 1]
  }

  function KeyByPath(keys: seq<string>, normSet: bool, isNorm: bool, path: Path): string
    requires path != []
  {
    if keys == [] then if normSet && isNorm then "norm" else "other"
    else if Matches(keys[0], path) then keys[0]
    else KeyByPath(keys[1..], normSet, isNorm, path)
  }

  /** The path leads from the module to the parameter, whose own module is a normalisation layer or not. */
  ghost predicate LeadsTo(layer: Layer, path: Path, isNorm: bool, p: Param)
    decreases |path|
  {
    if |path| == 0 then false
    else if |path| == 1 then p in layer.params && p.name == path[0] && isNorm == layer.isNorm
    else exists c :: c in layer.children && c.name == path[0] && LeadsTo(c.layer, path[1..], isNorm, p)
  }

  /** Submodules have names, as PyTorch asks. */
  ghost predicate Named(layer: Layer) {
    forall c :: c in layer.children ==> c.name != "" && Named(c.layer)
  }

  predicate NoneEmpty(names: Path) {
    forall i :: 0 <= i < |names| ==> names[i] != ""
  }

  /** The prefix the walk carries inside the modules of an outer path. */
  function Prefix(outer: Path): string {
    if outer == [] then "" else Dotted(outer)
  }

  lemma {:induction false} DottedSnoc(path: Path, name: string)
    requires path != []
    ensures Dotted(path + [name]) == Dotted(path) + "." + name
  {
    if |path| == 1 {
      assert (path + [name])[1..] == [name];
    } else {
      assert (path + [name])[1..] == path[1..] + [name];
      DottedSnoc(path[1..], name);
    }
  }

  lemma PrefixJoins(outer: Path, name: string)
    requires NoneEmpty(outer)
    ensures Join(Prefix(outer), name) == Prefix(outer + [name])
    ensures outer != [] ==> Prefix(outer) != ""
  {
    if outer == [] {
      assert outer + [name] == [name];
    } else {
      DottedSnoc(outer, name);
      assert outer[0] != "";
    }
  }

  lemma {:induction false} KeyOfPath(keys: seq<string>, normSet: bool, isNorm: bool, outer: Path, name: string)
    requires NoneEmpty(outer)
    ensures KeyOf(keys, normSet, isNorm, Prefix(outer), name) == KeyByPath(keys, normSet, isNorm, outer + [name])
  {
    if keys != [] {
      KeyOfPath(keys[1..], normSet, isNorm, outer, name);
      PrefixJoins(outer, name);
    }
  }

  /** What a parameter reached from inside the outer path is filed as. */
  function EntryOf(s: Settings, outer: Path, path: Path, isNorm: bool, p: Param): Entry
    requires path != []
  {
    (KeyByPath(s.Keys(), s.normDecay.Some?, isNorm, outer + path), p.id)
  }

  lemma {:induction false} OwnEntryHasPath(s: Settings, layer: Layer, outer: Path, n: nat, e: Entry) returns (p: Param)
    requires n <= |layer.params| && NoneEmpty(outer) && e in OwnEntries(s, layer, Prefix(outer), n)
    ensures p in layer.params && p.requiresGrad && e == EntryOf(s, outer, [p.name], layer.isNorm, p)
  {
    if e in OwnEntries(s, layer, Prefix(outer), n - 1) {
      p := OwnEntryHasPath(s, layer, outer, n - 1, e);
    } else {
      p := layer.params[n - 1];
      KeyOfPath(s.Keys(), s.normDecay.Some?, layer.isNorm, outer, p.name);
    }
  }

  lemma {:induction false} OwnPathHasEntry(s: Settings, layer: Layer, outer: Path, n: nat, i: nat)
    requires i < n <= |layer.params| && NoneEmpty(outer) && layer.params[i].requiresGrad
    ensures EntryOf(s, outer, [layer.params[i].name], layer.isNorm, layer.params[i])
         in OwnEntries(s, layer, Prefix(outer), n)
  {
    if i < n - 1 {
      OwnPathHasEntry(s, layer, outer, n - 1, i);
    } else {
      KeyOfPath(s.Keys(), s.normDecay.Some?, layer.isNorm, outer, layer.params[i].name);
    }
  }

  /** The same parameter seen from one module further out. */
  lemma OneModuleUp(s: Settings, layer: Layer, c: Child, outer: Path, inner: Path, isNorm: bool, p: Param)
    requires inner != [] && c in layer.children
    ensures EntryOf(s, outer + [c.name], inner, isNorm, p) == EntryOf(s, outer, [c.name] + inner, isNorm, p)
    ensures LeadsTo(c.layer, inner, isNorm, p) ==> LeadsTo(layer, [c.name] + inner, isNorm, p)
  {
    assert ([c.name] + inner)[1..] == inner && outer + [c.name] + inner == outer + ([c.name] + inner);
    hide KeyByPath;
  }

  /** Every entry of the walk belongs to a trainable parameter at some path, filed by that path. */
  lemma {:induction false} EntryHasPath(s: Settings, layer: Layer, outer: Path, e: Entry)
    returns (path: Path, isNorm: bool, p: Param)
    requires Named(layer) && NoneEmpty(outer) && e in Entries(s, layer, Prefix(outer))
    ensures LeadsTo(layer, path, isNorm, p) && p.requiresGrad && path != [] && e == EntryOf(s, outer, path, isNorm, p)
    decreases layer, 1, 0
  {
    hide EntryOf;
    if e in OwnEntries(s, layer, Prefix(outer), |layer.params|) {
      p := OwnEntryHasPath(s, layer, outer, |layer.params|, e);
      path, isNorm := [p.name], layer.isNorm;
    } else {
      path, isNorm, p := ChildEntryHasPath(s, layer, outer, |layer.children|, e);
    }
  }

  lemma {:induction false} ChildEntryHasPath(s: Settings, layer: Layer, outer: Path, n: nat, e: Entry)
    returns (path: Path, isNorm: bool, p: Param)
    requires n <= |layer.children| && Named(layer) && NoneEmpty(outer) && e in ChildEntries(s, layer, Prefix(outer), n)
    ensures LeadsTo(layer, path, isNorm, p) && p.requiresGrad && path != [] && e == EntryOf(s, outer, path, isNorm, p)
    decreases layer, 0, n
  {
    hide EntryOf, LeadsTo, Prefix, Entries, Join;
    if e in ChildEntries(s, layer, Prefix(outer), n - 1) {
      path, isNorm, p := ChildEntryHasPath(s, layer, outer, n - 1, e);
    } else {
      var c := layer.children[n - 1];
      PrefixJoins(outer, c.name);
      var inner;
      assert Named(c.layer) && e in Entries(s, c.layer, Prefix(outer + [c.name]));
      inner, isNorm, p := EntryHasPath(s, c.layer, outer + [c.name], e);
      path := [c.name] + inner;
      OneModuleUp(s, layer, c, outer, inner, isNorm, p);
    }
  }

  /** And every trainable parameter at a path has its entry. */
  lemma {:induction false} PathHasEntry(s: Settings, layer: Layer, outer: Path, path: Path, isNorm: bool, p: Param)
    requires Named(layer) && NoneEmpty(outer) && path != [] && LeadsTo(layer, path, isNorm, p) && p.requiresGrad
    ensures EntryOf(s, outer, path, isNorm, p) in Entries(s, layer, Prefix(outer))
    decreases |path|
  {
    hide EntryOf, Prefix, Entries, Join, KeyByPath;
    EntriesAre(s, layer, Prefix(outer));
    if |path| == 1 {
      var i :| 0 <= i < |layer.params| && layer.params[i] == p;
      assert path == [p.name];
      OwnPathHasEntry(s, layer, outer, |layer.params|, i);
    } else {
      var c :| c in layer.children && c.name == path[0] && LeadsTo(c.layer, path[1..], isNorm, p);
      var i :| 0 <= i < |layer.children| && layer.children[i] == c;
      assert Named(c.layer) && c.name != "";
      hide LeadsTo, Named;
      PathHasEntry(s, c.layer, outer + [c.name], path[1..], isNorm, p);
      PrefixJoins(outer, c.name);
      OneModuleUp(s, layer, c, outer, path[1..], isNorm, p);
      assert [c.name] + path[1..] == path;
      ChildHasEntry(s, layer, Prefix(outer), |layer.children|, i, EntryOf(s, outer, path, isNorm, p));
    }
  }

  lemma {:induction false} ChildHasEntry(s: Settings, layer: Layer, prefix: string, n: nat, i: nat, e: Entry)
    requires i < n <= |layer.children|
    requires e in Entries(s, layer.children[i].layer, Join(prefix, layer.children[i].name))
    ensures e in ChildEntries(s, layer, prefix, n)
  {
    hide Entries, Join;
    if i < n - 1 {
      ChildHasEntry(s, layer, prefix, n - 1, i, e);
    }
  }

  /** The walk files the trainable parameters of a model, each by its path: a key with a dot takes the parameters whose
      dotted path it is, one without a dot those of that name anywhere. */
  lemma FiledByPath(s: Settings, model: Layer, e: Entry)
    requires Named(model)
    ensures e in Entries(s, model, "") <==>
      exists path: Path, isNorm: bool, p: Param ::
        LeadsTo(model, path, isNorm, p) && p.requiresGrad && path != [] && e == EntryOf(s, [], path, isNorm, p)
  {
    if e in Entries(s, model, "") {
      var path, isNorm, p := EntryHasPath(s, model, [], e);
    }
    forall path: Path, isNorm: bool, p: Param |
      LeadsTo(model, path, isNorm, p) && p.requiresGrad && path != [] && e == EntryOf(s, [], path, isNorm, p)
      ensures e in Entries(s, model, "")
    {
      PathHasEntry(s, model, [], path, isNorm, p);
    }
  }
}
