/**
  Behaviour snapshots of a cyclic object graph, and the later check that nothing changed.

  A snapshot walks the objects that decide how a callable, class or mapping behaves, with a
  visited set so that shared and cyclic objects are stored with details only once.
  Verification walks the stored proof, never the graph. The theorems at the end say that this
  is nevertheless enough: an accepted proof pins every object the walk reached.
*/
module HeapProof {
  import opened Prelude

  type Obj = int

  /** What the walk can see of an object, by the type test that `behavior_proof_inner` makes first. */
  datatype Kind =
    | Function(code: Obj, defaults: Option<Obj>, kwdefaults: Option<Obj>, closure: Option<Obj>,
               attributes: Obj, annotations: Obj)
    | Partial(func: Obj, args: Obj, keywords: Option<Obj>)
    | Class(bases: Obj, dictionary: seq<(string, Obj)>)
    | Descriptor(members: map<string, Obj>)

  /** One instant of the Python heap. Objects outside `kinds` carry no behaviour of their own. */
  datatype Heap = Heap(
    kinds: map<Obj, Kind>,
    items: map<Obj, seq<(Obj, Obj)>>,  // objects with an `items` method, and what it yields
    tuples: map<Obj, seq<Obj>>,
    cells: map<Obj, Obj>,              // bound closure cells
    emptyLists: set<Obj>,
    emptyDicts: set<Obj>)

  const MEMBER_NAMES: seq<string> := ["__func__", "fget", "fset", "fdel"]

  function Items(h: Heap, o: Obj): seq<(Obj, Obj)> {
    if o in h.items then h.items[o] else []
  }

  function Elements(h: Heap, o: Obj): seq<Obj> {
    if o in h.tuples then h.tuples[o] else []
  }

  function Contents(h: Heap, cell: Obj): Option<Obj> {
    if cell in h.cells then Some(h.cells[cell]) else None
  }

  function Lookup(dictionary: seq<(string, Obj)>, name: string): Option<Obj> {
    if dictionary == [] then None
    else if dictionary[0].0 == name then Some(dictionary[0].1)
    else Lookup(dictionary[1..], name)
  }

  ghost predicate DistinctNames(dictionary: seq<(string, Obj)>) {
    forall i, j :: 0 <= i < j < |dictionary| ==> dictionary[i].0 != dictionary[j].0
  }

  /** What the interpreter itself guarantees about the attributes of functions, partials and classes. */
  ghost predicate Typed(h: Heap) {
    forall o :: o in h.kinds ==> TypedKind(h, h.kinds[o])
  }

  ghost predicate TypedKind(h: Heap, kind: Kind) {
    match kind
    case Function(_, defaults, kwdefaults, closure, attributes, annotations) =>
      && attributes in h.items && annotations in h.items
      && (kwdefaults.Some? ==> kwdefaults.value in h.items)
      && (defaults.Some? ==> defaults.value in h.tuples)
      && (closure.Some? ==> closure.value in h.tuples)
    case Partial(_, args, keywords) =>
      args in h.tuples && (keywords.Some? ==> keywords.value in h.items)
    case Class(bases, dictionary) => bases in h.tuples && DistinctNames(dictionary)
    case Descriptor(_) => true
  }

  // ----- proofs -----

  datatype Behavior = Behavior(target: Obj, details: Details)

  datatype Details =
    | Bare
    | FunctionDetails(callable: CallableProof)
    | PartialDetails(callee: Behavior, arguments: SequenceProof, keywords: Option<MappingProof>)
    | ClassDetails(dictionary: DictProof, bases: SequenceProof)
    | DescriptorDetails(names: seq<string>, members: seq<Behavior>)
    | MappingDetails(mapping: MappingProof)

  datatype SequenceProof = SequenceProof(sequence: Obj, items: seq<Obj>, behaviors: seq<Behavior>)
  datatype MappingProof = MappingProof(mapping: Obj, items: seq<(Obj, Obj)>, behaviors: seq<Behavior>)
  datatype DictProof = DictProof(items: seq<(string, Obj)>, behaviors: seq<Behavior>)

  /** `behaviors` are those of the contents of the bound cells, in cell order. */
  datatype CellsProof = CellsProof(cells: seq<Obj>, contents: seq<Option<Obj>>, behaviors: seq<Behavior>)

  datatype CallableProof = CallableProof(
    subject: Obj, code: Obj, defaultItems: Option<SequenceProof>,
    kwdefaults: Option<Obj>, kwdefaultItems: Option<MappingProof>,
    closure: Option<Obj>, closureCells: CellsProof,
    attributes: MappingProof, annotations: MappingProof)

  // ----- the walk -----

  /** How the walk opened an object: by its type, or as a mapping value with an `items` method. */
  datatype Mode = AsBehavior | AsMapping

  /** The source's visited set is the key set; the mode is what the walk did on the first visit. */
  type Visited = map<Obj, Mode>

  ghost predicate Grown(v: Visited, w: Visited) {
    v.Keys <= w.Keys && forall o :: o in v ==> w[o] == v[o]
  }

  function Values(items: seq<(Obj, Obj)>): seq<Obj> {
    seq(|items|, i requires 0 <= i < |items| => items[i].1)
  }

  function EntryValues(dictionary: seq<(string, Obj)>): seq<Obj> {
    seq(|dictionary|, i requires 0 <= i < |dictionary| => dictionary[i].1)
  }

  function CellContents(h: Heap, cells: seq<Obj>): seq<Option<Obj>> {
    seq(|cells|, i requires 0 <= i < |cells| => Contents(h, cells[i]))
  }

  function Bound(contents: seq<Option<Obj>>): (r: seq<Obj>)
    ensures forall o :: o in r <==> Some(o) in contents
  {
    if contents == [] then []
    else
      assert contents == [contents[0]] + contents[1..];
      (if contents[0].Some? then [contents[0].value] else []) + Bound(contents[1..])
  }

  /** The member names of `names` that the object has, in order. */
  function Present(members: map<string, Obj>, names: seq<string>): (r: seq<string>)
    ensures forall name :: name in r <==> name in names && name in members
  {
    if names == [] then []
    else
      assert names == [names[0]] + names[1..];
      (if names[0] in members then [names[0]] else []) + Present(members, names[1..])
  }

  function MemberObjects(members: map<string, Obj>, names: seq<string>): seq<Obj>
    requires forall name :: name in names ==> name in members
  {
    seq(|names|, i requires 0 <= i < |names| => members[names[i]])
  }

  ghost function Unseen(h: Heap, v: Visited): set<Obj> {
    h.kinds.Keys + h.items.Keys - v.Keys
  }

  /** The snapshot of one object (`behavior_proof_inner`), threading the visited set. */
  function Snapshot(h: Heap, o: Obj, v: Visited): (r: (Behavior, Visited))
    ensures r.0.target == o && o in r.1 && Grown(v, r.1)
    decreases Unseen(h, v), 0, 0
  {
    if o in v then (Behavior(o, Bare), v)
    else
      var v1 := v[o := AsBehavior];
      if o !in h.kinds then (Behavior(o, Bare), v1)
      else
        match h.kinds[o]
        case Function(_, _, _, _, _, _) =>
          var (callable, w) := SnapshotCallable(h, o, h.kinds[o], v1);
          (Behavior(o, FunctionDetails(callable)), w)
        case Partial(func, args, keywords) =>
          var (callee, v2) := Snapshot(h, func, v1);
          var (arguments, v3) := SnapshotSequence(h, args, v2);
          var (keywordItems, v4) := SnapshotOptionalMapping(h, keywords, v3);
          (Behavior(o, PartialDetails(callee, arguments, keywordItems)), v4)
        case Class(bases, dictionary) =>
          var (baseItems, v2) := SnapshotSequence(h, bases, v1);
          var (values, v3) := SnapshotAll(h, EntryValues(dictionary), v2);
          (Behavior(o, ClassDetails(DictProof(dictionary, values), baseItems)), v3)
        case Descriptor(members) =>
          var names := Present(members, MEMBER_NAMES);
          var (behaviors, v2) := SnapshotAll(h, MemberObjects(members, names), v1);
          (Behavior(o, if names == [] then Bare else DescriptorDetails(names, behaviors)), v2)
  }

  function SnapshotCallable(h: Heap, o: Obj, kind: Kind, v: Visited): (r: (CallableProof, Visited))
    requires kind.Function?
    ensures Grown(v, r.1)
    decreases Unseen(h, v), 4, 0
  {
    var cells := if kind.closure.Some? then Elements(h, kind.closure.value) else [];
    var contents := CellContents(h, cells);
    var (cellBehaviors, v1) := SnapshotAll(h, Bound(contents), v);
    var (defaults, v2) := SnapshotOptionalSequence(h, kind.defaults, v1);
    var (kwdefaults, v3) := SnapshotOptionalMapping(h, kind.kwdefaults, v2);
    var (attributes, v4) := SnapshotMapping(h, kind.attributes, v3);
    var (annotations, v5) := SnapshotMapping(h, kind.annotations, v4);
    (CallableProof(o, kind.code, defaults, kind.kwdefaults, kwdefaults, kind.closure,
                   CellsProof(cells, contents, cellBehaviors), attributes, annotations), v5)
  }

  function SnapshotAll(h: Heap, objects: seq<Obj>, v: Visited): (r: (seq<Behavior>, Visited))
    ensures Grown(v, r.1) && |r.0| == |objects|
    ensures forall i :: 0 <= i < |objects| ==> r.0[i].target == objects[i] && objects[i] in r.1
    decreases Unseen(h, v), 1, |objects|
  {
    if objects == [] then ([], v)
    else
      var (first, v1) := Snapshot(h, objects[0], v);
      var (rest, v2) := SnapshotAll(h, objects[1..], v1);
      ([first] + rest, v2)
  }

  /** The values of a mapping: one that has `items` and is met for the first time is opened as a mapping. */
  function SnapshotValues(h: Heap, objects: seq<Obj>, v: Visited): (r: (seq<Behavior>, Visited))
    ensures Grown(v, r.1) && |r.0| == |objects|
    ensures forall i :: 0 <= i < |objects| ==> r.0[i].target == objects[i] && objects[i] in r.1
    decreases Unseen(h, v), 1, |objects|
  {
    if objects == [] then ([], v)
    else
      var o := objects[0];
      var (first, v1) :=
        if o in h.items && o !in v then
          assert o in Unseen(h, v) && o !in Unseen(h, v[o := AsMapping]);
          var (mapping, w) := SnapshotMapping(h, o, v[o := AsMapping]);
          (Behavior(o, MappingDetails(mapping)), w)
        else Snapshot(h, o, v);
      var (rest, v2) := SnapshotValues(h, objects[1..], v1);
      ([first] + rest, v2)
  }

  function SnapshotSequence(h: Heap, sequence: Obj, v: Visited): (r: (SequenceProof, Visited))
    ensures Grown(v, r.1) && r.0.sequence == sequence && r.0.items == Elements(h, sequence)
    decreases Unseen(h, v), 2, 0
  {
    var (behaviors, w) := SnapshotAll(h, Elements(h, sequence), v);
    (SequenceProof(sequence, Elements(h, sequence), behaviors), w)
  }

  function SnapshotMapping(h: Heap, mapping: Obj, v: Visited): (r: (MappingProof, Visited))
    ensures Grown(v, r.1) && r.0.mapping == mapping && r.0.items == Items(h, mapping)
    decreases Unseen(h, v), 2, 0
  {
    var (behaviors, w) := SnapshotValues(h, Values(Items(h, mapping)), v);
    (MappingProof(mapping, Items(h, mapping), behaviors), w)
  }

  function SnapshotOptionalMapping(h: Heap, mapping: Option<Obj>, v: Visited): (r: (Option<MappingProof>, Visited))
    ensures Grown(v, r.1) && (r.0.Some? <==> mapping.Some?)
    ensures mapping.Some? ==> r.0.value.mapping == mapping.value && r.0.value.items == Items(h, mapping.value)
    decreases Unseen(h, v), 3, 0
  {
    if mapping.None? then (None, v)
    else var (m, w) := SnapshotMapping(h, mapping.value, v); (Some(m), w)
  }

  function SnapshotOptionalSequence(h: Heap, sequence: Option<Obj>, v: Visited): (r: (Option<SequenceProof>, Visited))
    ensures Grown(v, r.1) && (r.0.Some? <==> sequence.Some?)
    ensures sequence.Some? ==> r.0.value.sequence == sequence.value && r.0.value.items == Elements(h, sequence.value)
    decreases Unseen(h, v), 3, 0
  {
    if sequence.None? then (None, v)
    else var (s, w) := SnapshotSequence(h, sequence.value, v); (Some(s), w)
  }

  // ----- verification -----

  /** `behavior_proof_is_pristine`: the stored proof still describes `value` in heap `h`. */
  predicate Pristine(h: Heap, value: Obj, proof: Behavior)
    decreases proof, 1
  {
    && value == proof.target
    && match proof.details
       case Bare => true
       case FunctionDetails(callable) => CallablePristine(h, callable)
       case PartialDetails(callee, arguments, keywords) =>
         && value in h.kinds && h.kinds[value].Partial?
         && Pristine(h, h.kinds[value].func, callee)
         && SequencePristine(h, h.kinds[value].args, arguments)
         && (keywords.None? ==> h.kinds[value].keywords.None?)
         && OptionalMappingPristine(h, h.kinds[value].keywords, keywords)
       case ClassDetails(dictionary, bases) =>
         && value in h.kinds && h.kinds[value].Class?
         && SequencePristine(h, h.kinds[value].bases, bases)
         && ClassDictPristine(h, h.kinds[value].dictionary, dictionary.items)
         && AllPristine(h, dictionary.behaviors)
       case DescriptorDetails(names, members) =>
         && value in h.kinds && h.kinds[value].Descriptor?
         && |names| == |members|
         && (forall i :: 0 <= i < |names| ==>
               && names[i] in h.kinds[value].members
               && h.kinds[value].members[names[i]] == members[i].target)
         && AllPristine(h, members)
       case MappingDetails(mapping) => MappingPristine(h, value, mapping)
  }

  predicate AllPristine(h: Heap, behaviors: seq<Behavior>)
    decreases behaviors, 0
  {
    forall i :: 0 <= i < |behaviors| ==> Pristine(h, behaviors[i].target, behaviors[i])
  }

  predicate SequencePristine(h: Heap, value: Obj, proof: SequenceProof)
    decreases proof, 0
  {
    value == proof.sequence && value in h.tuples && h.tuples[value] == proof.items && AllPristine(h, proof.behaviors)
  }

  predicate MappingPristine(h: Heap, value: Obj, proof: MappingProof)
    decreases proof, 0
  {
    value == proof.mapping && value in h.items && h.items[value] == proof.items && AllPristine(h, proof.behaviors)
  }

  predicate OptionalMappingPristine(h: Heap, value: Option<Obj>, proof: Option<MappingProof>)
    decreases proof, 0
  {
    proof.Some? ==> value.Some? && MappingPristine(h, value.value, proof.value)
  }

  predicate OptionalSequencePristine(h: Heap, value: Option<Obj>, proof: Option<SequenceProof>)
    decreases proof, 0
  {
    if proof.None? then value.None? else value.Some? && SequencePristine(h, value.value, proof.value)
  }

  predicate CellsPristine(h: Heap, closure: Option<Obj>, proof: CellsProof)
    decreases proof, 0
  {
    && (if closure.None? then proof.cells == []
        else closure.value in h.tuples && h.tuples[closure.value] == proof.cells)
    && CellContents(h, proof.cells) == proof.contents
    && AllPristine(h, proof.behaviors)
  }

  predicate CallablePristine(h: Heap, proof: CallableProof)
    decreases proof, 0
  {
    && proof.subject in h.kinds && h.kinds[proof.subject].Function?
    && var f := h.kinds[proof.subject];
    && f.code == proof.code
    && f.kwdefaults == proof.kwdefaults
    && f.closure == proof.closure
    && MappingPristine(h, f.attributes, proof.attributes)
    && MappingPristine(h, f.annotations, proof.annotations)
    && OptionalMappingPristine(h, f.kwdefaults, proof.kwdefaultItems)
    && OptionalSequencePristine(h, f.defaults, proof.defaultItems)
    && CellsPristine(h, f.closure, proof.closureCells)
  }

  /** `class_dict_proof_is_pristine`: one extra empty cache entry is tolerated. */
  predicate ClassDictPristine(h: Heap, current: seq<(string, Obj)>, recorded: seq<(string, Obj)>) {
    && (|current| == |recorded| || |current| == |recorded| + 1)
    && (|current| == |recorded| + 1 ==>
          || (Lookup(recorded, "__slotnames__").None? && EmptyEntry(current, "__slotnames__", h.emptyLists))
          || (Lookup(recorded, "__annotations__").None? && EmptyEntry(current, "__annotations__", h.emptyDicts)))
    && forall i :: 0 <= i < |recorded| ==> Lookup(current, recorded[i].0) == Some(recorded[i].1)
  }

  predicate EmptyEntry(current: seq<(string, Obj)>, name: string, empties: set<Obj>) {
    Lookup(current, name).Some? && Lookup(current, name).value in empties
  }

  // ----- what an accepted proof means, in terms of the two heaps only -----

  ghost predicate SameItems(h: Heap, k: Heap, o: Obj) {
    o in h.items ==> o in k.items && k.items[o] == h.items[o]
  }

  ghost predicate SameElements(h: Heap, k: Heap, o: Obj) {
    o in h.tuples ==> o in k.tuples && k.tuples[o] == h.tuples[o]
  }

  ghost predicate SameClosure(h: Heap, k: Heap, closure: Obj) {
    && SameElements(h, k, closure)
    && forall cell :: cell in Elements(h, closure) ==> Contents(k, cell) == Contents(h, cell)
  }

  /** The class dictionary `before`, up to one extra empty cache entry. */
  ghost predicate SameClassDict(k: Heap, before: seq<(string, Obj)>, after: seq<(string, Obj)>) {
    && (forall i :: 0 <= i < |before| ==> Lookup(after, before[i].0) == Some(before[i].1))
    && (forall i :: 0 <= i < |after| && Lookup(before, after[i].0).None? ==>
          || (after[i].0 == "__slotnames__" && after[i].1 in k.emptyLists)
          || (after[i].0 == "__annotations__" && after[i].1 in k.emptyDicts))
    && |before| <= |after| <= |before| + 1
  }

  /** Every field of `o` that the walk over `h` recorded holds the same object in `k`. */
  ghost predicate Holds(h: Heap, k: Heap, o: Obj, mode: Mode) {
    match mode
    case AsMapping => SameItems(h, k, o)
    case AsBehavior =>
      o in h.kinds ==> HoldsKind(h, k, o, h.kinds[o])
  }

  ghost predicate HoldsKind(h: Heap, k: Heap, o: Obj, kind: Kind) {
    match kind
    case Function(code, defaults, kwdefaults, closure, attributes, annotations) =>
      && o in k.kinds && k.kinds[o] == kind
      && SameItems(h, k, attributes) && SameItems(h, k, annotations)
      && (kwdefaults.Some? ==> SameItems(h, k, kwdefaults.value))
      && (defaults.Some? ==> SameElements(h, k, defaults.value))
      && (closure.Some? ==> SameClosure(h, k, closure.value))
    case Partial(func, args, keywords) =>
      && o in k.kinds && k.kinds[o] == kind
      && SameElements(h, k, args)
      && (keywords.Some? ==> SameItems(h, k, keywords.value))
    case Class(bases, dictionary) =>
      && o in k.kinds && k.kinds[o].Class? && k.kinds[o].bases == bases
      && SameElements(h, k, bases)
      && SameClassDict(k, dictionary, k.kinds[o].dictionary)
    case Descriptor(members) =>
      forall name :: name in MEMBER_NAMES && name in members ==> MemberHolds(k, o, name, members[name])
  }

  ghost predicate MemberHolds(k: Heap, o: Obj, name: string, member: Obj) {
    o in k.kinds && k.kinds[o].Descriptor? && name in k.kinds[o].members && k.kinds[o].members[name] == member
  }

  ghost function ItemTargets(h: Heap, o: Obj): set<Obj> {
    set p | p in Items(h, o) :: p.1
  }

  ghost function ElementTargets(h: Heap, o: Obj): set<Obj> {
    set x | x in Elements(h, o)
  }

  /** The objects the walk goes on to from `o`, each by its type. */
  ghost function BehaviorTargets(h: Heap, o: Obj, mode: Mode): set<Obj> {
    if mode == AsBehavior && o in h.kinds then KindBehaviors(h, h.kinds[o]) else {}
  }

  ghost function KindBehaviors(h: Heap, kind: Kind): set<Obj> {
    match kind
    case Function(_, defaults, _, closure, _, _) =>
      (if defaults.Some? then ElementTargets(h, defaults.value) else {})
      + (if closure.Some? then set c | c in Elements(h, closure.value) && c in h.cells :: h.cells[c] else {})
    case Partial(func, args, _) => {func} + ElementTargets(h, args)
    case Class(bases, dictionary) => ElementTargets(h, bases) + set p | p in dictionary :: p.1
    case Descriptor(members) => set name | name in MEMBER_NAMES && name in members :: members[name]
  }

  /** The objects the walk goes on to from `o` as values of a mapping, to be opened as mappings if they have items. */
  ghost function ValueTargets(h: Heap, o: Obj, mode: Mode): set<Obj> {
    match mode
    case AsMapping => ItemTargets(h, o)
    case AsBehavior => if o in h.kinds then KindValues(h, h.kinds[o]) else {}
  }

  ghost function KindValues(h: Heap, kind: Kind): set<Obj> {
    match kind
    case Function(_, _, kwdefaults, _, attributes, annotations) =>
      ItemTargets(h, attributes) + ItemTargets(h, annotations)
      + if kwdefaults.Some? then ItemTargets(h, kwdefaults.value) else {}
    case Partial(_, _, keywords) => if keywords.Some? then ItemTargets(h, keywords.value) else {}
    case _ => {}
  }

  ghost function Followed(h: Heap, o: Obj, mode: Mode): set<Obj> {
    BehaviorTargets(h, o, mode) + ValueTargets(h, o, mode)
  }

  // ----- one stretch of the walk -----

  /**
    What a stretch of the walk, from visited set `v` to `w`, establishes: the objects it opened
    lead only to visited objects, and the proofs it produced are accepted in `k` exactly when
    the recorded fields of those objects hold there.
  */
  ghost predicate Exact(h: Heap, k: Heap, v: Visited, w: Visited, accepted: bool) {
    Grown(v, w) && Covered(h, v, w) && (accepted <==> Kept(h, k, v, w))
  }

  ghost predicate Covered(h: Heap, v: Visited, w: Visited) {
    forall x :: x in w && x !in v ==> Followed(h, x, w[x]) <= w.Keys
  }

  ghost predicate Kept(h: Heap, k: Heap, v: Visited, w: Visited) {
    forall x :: x in w && x !in v ==> Holds(h, k, x, w[x])
  }

  lemma Chain(h: Heap, k: Heap, u: Visited, v: Visited, w: Visited, p: bool, q: bool)
    requires Exact(h, k, u, v, p) && Exact(h, k, v, w, q)
    ensures Exact(h, k, u, w, p && q)
  {
    forall x | x in w && x !in u ensures Followed(h, x, w[x]) <= w.Keys {
      if x in v { assert Followed(h, x, v[x]) <= v.Keys; }
    }
    if Kept(h, k, u, w) {
      forall x | x in v && x !in u ensures Holds(h, k, x, v[x]) { assert x in w; }
    }
  }

  /** An object opened just before a stretch joins what that stretch establishes. */
  lemma Open(h: Heap, k: Heap, o: Obj, mode: Mode, v: Visited, w: Visited, accepted: bool)
    requires o !in v && Exact(h, k, v[o := mode], w, accepted)
    requires Followed(h, o, mode) <= w.Keys
    ensures Exact(h, k, v, w, accepted && Holds(h, k, o, mode))
  {
    assert w[o] == mode;
  }

  lemma {:induction false} SnapshotExact(h: Heap, k: Heap, o: Obj, v: Visited)
    requires Typed(h) && Typed(k)
    ensures Exact(h, k, v, Snapshot(h, o, v).1, Pristine(k, o, Snapshot(h, o, v).0))
    decreases Unseen(h, v), 0, 0
  {
    if o !in v {
      var v1 := v[o := AsBehavior];
      var (proof, w) := Snapshot(h, o, v);
      if o !in h.kinds {
        Open(h, k, o, AsBehavior, v, v1, true);
      } else {
        assert o in Unseen(h, v) && o !in Unseen(h, v1);
        match h.kinds[o]
        case Function(_, _, _, _, _, _) => FunctionExact(h, k, o, v);
        case Partial(_, _, _) => PartialExact(h, k, o, v);
        case Class(_, _) => ClassExact(h, k, o, v);
        case Descriptor(_) => DescriptorExact(h, k, o, v);
      }
    }
  }

  lemma {:induction false} AllExact(h: Heap, k: Heap, objects: seq<Obj>, v: Visited)
    requires Typed(h) && Typed(k)
    ensures Exact(h, k, v, SnapshotAll(h, objects, v).1, AllPristine(k, SnapshotAll(h, objects, v).0))
    decreases Unseen(h, v), 1, |objects|
  {
    if objects != [] {
      var (first, v1) := Snapshot(h, objects[0], v);
      var (rest, v2) := SnapshotAll(h, objects[1..], v1);
      SnapshotExact(h, k, objects[0], v);
      AllExact(h, k, objects[1..], v1);
      Chain(h, k, v, v1, v2, Pristine(k, objects[0], first), AllPristine(k, rest));
      AllPristineSplit(k, first, rest);
    }
  }

  lemma AllPristineSplit(k: Heap, first: Behavior, rest: seq<Behavior>)
    ensures AllPristine(k, [first] + rest) <==> Pristine(k, first.target, first) && AllPristine(k, rest)
  {
    var all := [first] + rest;
    assert all[0] == first && forall i :: 0 <= i < |rest| ==> all[i + 1] == rest[i];
  }

  lemma {:induction false} ValuesExact(h: Heap, k: Heap, objects: seq<Obj>, v: Visited)
    requires Typed(h) && Typed(k)
    ensures Exact(h, k, v, SnapshotValues(h, objects, v).1, AllPristine(k, SnapshotValues(h, objects, v).0))
    decreases Unseen(h, v), 1, |objects|
  {
    if objects != [] {
      var o := objects[0];
      var first, v1;
      if o in h.items && o !in v {
        var u := v[o := AsMapping];
        assert o in Unseen(h, v) && o !in Unseen(h, u);
        var (mapping, w) := SnapshotMapping(h, o, u);
        first, v1 := Behavior(o, MappingDetails(mapping)), w;
        MappingOpened(h, k, o, v);
      } else {
        first, v1 := Snapshot(h, o, v).0, Snapshot(h, o, v).1;
        SnapshotExact(h, k, o, v);
      }
      var (rest, v2) := SnapshotValues(h, objects[1..], v1);
      ValuesExact(h, k, objects[1..], v1);
      Chain(h, k, v, v1, v2, Pristine(k, o, first), AllPristine(k, rest));
      AllPristineSplit(k, first, rest);
    }
  }

  lemma {:induction false} MappingOpened(h: Heap, k: Heap, o: Obj, v: Visited)
    requires Typed(h) && Typed(k) && o in h.items && o !in v
    ensures var (mapping, w) := SnapshotMapping(h, o, v[o := AsMapping]);
            Exact(h, k, v, w, Pristine(k, o, Behavior(o, MappingDetails(mapping))))
    decreases Unseen(h, v[o := AsMapping]), 3, 0
  {
    var (mapping, w) := SnapshotMapping(h, o, v[o := AsMapping]);
    MappingExact(h, k, o, v[o := AsMapping]);
    ItemsVisited(h, o, v[o := AsMapping]);
    Open(h, k, o, AsMapping, v, w, AllPristine(k, mapping.behaviors));
    var proof := Behavior(o, MappingDetails(mapping));
    assert Pristine(k, o, proof) <==> MappingPristine(k, o, mapping);
  }

  lemma {:induction false} MappingExact(h: Heap, k: Heap, mapping: Obj, v: Visited)
    requires Typed(h) && Typed(k)
    ensures var (proof, w) := SnapshotMapping(h, mapping, v);
            Exact(h, k, v, w, AllPristine(k, proof.behaviors))
    decreases Unseen(h, v), 2, 0
  {
    ValuesExact(h, k, Values(Items(h, mapping)), v);
  }

  lemma ItemsVisited(h: Heap, mapping: Obj, v: Visited)
    ensures ItemTargets(h, mapping) <= SnapshotMapping(h, mapping, v).1.Keys
  {
    var items := Items(h, mapping);
    forall p | p in items ensures p.1 in Values(items) {
      var i :| 0 <= i < |items| && items[i] == p;
      assert Values(items)[i] == p.1;
    }
  }

  lemma ElementsVisited(h: Heap, sequence: Obj, v: Visited)
    ensures ElementTargets(h, sequence) <= SnapshotSequence(h, sequence, v).1.Keys
  {
    var all := SnapshotAll(h, Elements(h, sequence), v);
  }

  lemma {:induction false} SequenceExact(h: Heap, k: Heap, sequence: Obj, v: Visited)
    requires Typed(h) && Typed(k)
    ensures var (proof, w) := SnapshotSequence(h, sequence, v);
            Exact(h, k, v, w, AllPristine(k, proof.behaviors))
    decreases Unseen(h, v), 2, 0
  {
    AllExact(h, k, Elements(h, sequence), v);
  }

  ghost predicate MappingBehaviors(k: Heap, proof: Option<MappingProof>) {
    proof.Some? ==> AllPristine(k, proof.value.behaviors)
  }

  ghost predicate SequenceBehaviors(k: Heap, proof: Option<SequenceProof>) {
    proof.Some? ==> AllPristine(k, proof.value.behaviors)
  }

  lemma {:induction false} OptionalMappingExact(h: Heap, k: Heap, mapping: Option<Obj>, v: Visited)
    requires Typed(h) && Typed(k)
    ensures var (proof, w) := SnapshotOptionalMapping(h, mapping, v);
            Exact(h, k, v, w, MappingBehaviors(k, proof))
    decreases Unseen(h, v), 3, 0
  {
    if mapping.Some? { MappingExact(h, k, mapping.value, v); }
  }

  lemma {:induction false} OptionalSequenceExact(h: Heap, k: Heap, sequence: Option<Obj>, v: Visited)
    requires Typed(h) && Typed(k)
    ensures var (proof, w) := SnapshotOptionalSequence(h, sequence, v);
            Exact(h, k, v, w, SequenceBehaviors(k, proof))
    decreases Unseen(h, v), 3, 0
  {
    if sequence.Some? { SequenceExact(h, k, sequence.value, v); }
  }

  // ----- the four kinds of object -----

  lemma {:induction false} PartialExact(h: Heap, k: Heap, o: Obj, v: Visited)
    requires Typed(h) && Typed(k) && o in h.kinds && h.kinds[o].Partial? && o !in v
    ensures Exact(h, k, v, Snapshot(h, o, v).1, Pristine(k, o, Snapshot(h, o, v).0))
    decreases Unseen(h, v[o := AsBehavior]), 6, 0
  {
    var Partial(func, args, keywords) := h.kinds[o];
    var v1 := v[o := AsBehavior];
    var (proof, w) := Snapshot(h, o, v);
    var (callee, v2) := Snapshot(h, func, v1);
    var (arguments, v3) := SnapshotSequence(h, args, v2);
    var keywordItems := SnapshotOptionalMapping(h, keywords, v3).0;
    var p, q, r := Pristine(k, func, callee), AllPristine(k, arguments.behaviors), MappingBehaviors(k, keywordItems);
    assert Exact(h, k, v1, v3, p && q) by {
      SnapshotExact(h, k, func, v1);
      SequenceExact(h, k, args, v2);
      Chain(h, k, v1, v2, v3, p, q);
    }
    assert Exact(h, k, v1, w, p && q && r) by {
      OptionalMappingExact(h, k, keywords, v3);
      Chain(h, k, v1, v3, w, p && q, r);
    }
    ElementsVisited(h, args, v2);
    if keywords.Some? { ItemsVisited(h, keywords.value, v3); }
    Open(h, k, o, AsBehavior, v, w, p && q && r);
    PartialMeaning(h, k, o, callee, arguments, keywordItems);
  }

  lemma PartialMeaning(h: Heap, k: Heap, o: Obj, callee: Behavior, arguments: SequenceProof,
    keywords: Option<MappingProof>)
    requires o in h.kinds && h.kinds[o].Partial? && TypedKind(h, h.kinds[o])
    requires callee.target == h.kinds[o].func
    requires arguments.sequence == h.kinds[o].args && arguments.items == Elements(h, h.kinds[o].args)
    requires keywords.Some? <==> h.kinds[o].keywords.Some?
    requires keywords.Some? ==> keywords.value.mapping == h.kinds[o].keywords.value
                                && keywords.value.items == Items(h, h.kinds[o].keywords.value)
    ensures Pristine(k, o, Behavior(o, PartialDetails(callee, arguments, keywords)))
            <==> Pristine(k, h.kinds[o].func, callee) && AllPristine(k, arguments.behaviors)
                 && MappingBehaviors(k, keywords) && HoldsKind(h, k, o, h.kinds[o])
  {
    var proof := Behavior(o, PartialDetails(callee, arguments, keywords));
    if Pristine(k, o, proof) {
      assert SequencePristine(k, k.kinds[o].args, arguments);
      assert OptionalMappingPristine(k, k.kinds[o].keywords, keywords);
      assert Pristine(k, k.kinds[o].func, callee);
      if keywords.Some? { assert MappingPristine(k, k.kinds[o].keywords.value, keywords.value); }
      assert k.kinds[o] == h.kinds[o];
    }
    if Pristine(k, h.kinds[o].func, callee) && AllPristine(k, arguments.behaviors)
       && MappingBehaviors(k, keywords) && HoldsKind(h, k, o, h.kinds[o]) {
      assert SequencePristine(k, h.kinds[o].args, arguments);
      if keywords.Some? { assert MappingPristine(k, h.kinds[o].keywords.value, keywords.value); }
    }
  }

  lemma {:induction false} ClassExact(h: Heap, k: Heap, o: Obj, v: Visited)
    requires Typed(h) && Typed(k) && o in h.kinds && h.kinds[o].Class? && o !in v
    ensures Exact(h, k, v, Snapshot(h, o, v).1, Pristine(k, o, Snapshot(h, o, v).0))
    decreases Unseen(h, v[o := AsBehavior]), 6, 0
  {
    var Class(bases, dictionary) := h.kinds[o];
    var v1 := v[o := AsBehavior];
    var (proof, w) := Snapshot(h, o, v);
    var (baseItems, v2) := SnapshotSequence(h, bases, v1);
    var values := SnapshotAll(h, EntryValues(dictionary), v2).0;
    SequenceExact(h, k, bases, v1);
    AllExact(h, k, EntryValues(dictionary), v2);
    var p, q := AllPristine(k, baseItems.behaviors), AllPristine(k, values);
    Chain(h, k, v1, v2, w, p, q);
    EntryTargets(dictionary);
    ElementsVisited(h, bases, v1);
    Open(h, k, o, AsBehavior, v, w, p && q);
    ClassMeaning(h, k, o, baseItems, values);
  }

  lemma ClassMeaning(h: Heap, k: Heap, o: Obj, bases: SequenceProof, values: seq<Behavior>)
    requires Typed(h) && Typed(k) && o in h.kinds && h.kinds[o].Class?
    requires bases.sequence == h.kinds[o].bases && bases.items == Elements(h, h.kinds[o].bases)
    ensures Pristine(k, o, Behavior(o, ClassDetails(DictProof(h.kinds[o].dictionary, values), bases)))
            <==> AllPristine(k, bases.behaviors) && AllPristine(k, values) && HoldsKind(h, k, o, h.kinds[o])
  {
    assert TypedKind(h, h.kinds[o]);
    if o in k.kinds && k.kinds[o].Class? {
      assert TypedKind(k, k.kinds[o]);
      ClassDictMeaning(k, k.kinds[o].dictionary, h.kinds[o].dictionary);
    }
  }

  lemma EntryTargets(dictionary: seq<(string, Obj)>)
    ensures forall p :: p in dictionary ==> p.1 in EntryValues(dictionary)
  {
    forall p | p in dictionary ensures p.1 in EntryValues(dictionary) {
      var i :| 0 <= i < |dictionary| && dictionary[i] == p;
      assert EntryValues(dictionary)[i] == p.1;
    }
  }

  lemma {:induction false} DescriptorExact(h: Heap, k: Heap, o: Obj, v: Visited)
    requires Typed(h) && Typed(k) && o in h.kinds && h.kinds[o].Descriptor? && o !in v
    ensures Exact(h, k, v, Snapshot(h, o, v).1, Pristine(k, o, Snapshot(h, o, v).0))
    decreases Unseen(h, v[o := AsBehavior]), 6, 0
  {
    var members := h.kinds[o].members;
    var names := Present(members, MEMBER_NAMES);
    var objects := MemberObjects(members, names);
    var v1 := v[o := AsBehavior];
    var w := Snapshot(h, o, v).1;
    var behaviors := SnapshotAll(h, objects, v1).0;
    AllExact(h, k, objects, v1);
    forall name | name in names ensures members[name] in objects {
      var i :| 0 <= i < |names| && names[i] == name;
      assert objects[i] == members[name];
    }
    Open(h, k, o, AsBehavior, v, w, AllPristine(k, behaviors));
    DescriptorMeaning(k, o, members, MEMBER_NAMES, behaviors);
  }

  lemma DescriptorMeaning(k: Heap, o: Obj, members: map<string, Obj>, all: seq<string>, behaviors: seq<Behavior>)
    requires var objects := MemberObjects(members, Present(members, all));
             |behaviors| == |objects| && forall i :: 0 <= i < |objects| ==> behaviors[i].target == objects[i]
    ensures var names := Present(members, all);
            Pristine(k, o, Behavior(o, if names == [] then Bare else DescriptorDetails(names, behaviors)))
            <==> AllPristine(k, behaviors) && forall name :: name in all && name in members ==>
              MemberHolds(k, o, name, members[name])
  {
    hide Pristine, AllPristine;
    var names := Present(members, all);
    assert forall name :: name in all && name in members <==> name in names;
    if names == [] {
      BarePristine(k, o, behaviors);
    } else {
      DescriptorPristine(k, o, names, behaviors);
      MembersHold(k, o, members, names, behaviors);
      assert names[0] in names;
    }
  }

  lemma BarePristine(k: Heap, o: Obj, behaviors: seq<Behavior>)
    ensures Pristine(k, o, Behavior(o, Bare)) && (behaviors == [] ==> AllPristine(k, behaviors))
  {
  }

  lemma DescriptorPristine(k: Heap, o: Obj, names: seq<string>, behaviors: seq<Behavior>)
    requires names != [] && |names| == |behaviors|
    ensures Pristine(k, o, Behavior(o, DescriptorDetails(names, behaviors)))
            <==> AllPristine(k, behaviors) && forall i :: 0 <= i < |names| ==>
              MemberHolds(k, o, names[i], behaviors[i].target)
  {
    hide AllPristine;
    if forall i :: 0 <= i < |names| ==> MemberHolds(k, o, names[i], behaviors[i].target) {
      assert MemberHolds(k, o, names[0], behaviors[0].target);
    }
  }

  lemma MembersHold(k: Heap, o: Obj, members: map<string, Obj>, names: seq<string>, behaviors: seq<Behavior>)
    requires forall name :: name in names ==> name in members
    requires |behaviors| == |names| && forall i :: 0 <= i < |names| ==> behaviors[i].target == members[names[i]]
    ensures (forall i :: 0 <= i < |names| ==> MemberHolds(k, o, names[i], behaviors[i].target))
            <==> forall name :: name in names ==> MemberHolds(k, o, name, members[name])
  {
    if forall name :: name in names ==> MemberHolds(k, o, name, members[name]) {
      forall i | 0 <= i < |names| ensures MemberHolds(k, o, names[i], behaviors[i].target) {
        assert names[i] in names;
      }
    }
  }

  ghost predicate CallableBehaviors(k: Heap, proof: CallableProof) {
    && AllPristine(k, proof.closureCells.behaviors)
    && SequenceBehaviors(k, proof.defaultItems)
    && MappingBehaviors(k, proof.kwdefaultItems)
    && AllPristine(k, proof.attributes.behaviors)
    && AllPristine(k, proof.annotations.behaviors)
  }

  lemma {:induction false} FunctionExact(h: Heap, k: Heap, o: Obj, v: Visited)
    requires Typed(h) && Typed(k) && o in h.kinds && h.kinds[o].Function? && o !in v
    ensures Exact(h, k, v, Snapshot(h, o, v).1, Pristine(k, o, Snapshot(h, o, v).0))
    decreases Unseen(h, v[o := AsBehavior]), 6, 0
  {
    var v1 := v[o := AsBehavior];
    var (callable, w) := SnapshotCallable(h, o, h.kinds[o], v1);
    CallableExact(h, k, o, h.kinds[o], v1);
    CallableFollowed(h, o, h.kinds[o], v1);
    Open(h, k, o, AsBehavior, v, w, CallableBehaviors(k, callable));
    assert TypedKind(h, h.kinds[o]);
    CallableMeaning(h, k, o, h.kinds[o], v1);
  }

  lemma {:induction false} CallableExact(h: Heap, k: Heap, o: Obj, kind: Kind, v: Visited)
    requires Typed(h) && Typed(k) && kind.Function?
    ensures var (proof, w) := SnapshotCallable(h, o, kind, v);
            Exact(h, k, v, w, CallableBehaviors(k, proof))
    decreases Unseen(h, v), 5, 0
  {
    hide Exact, Pristine, AllPristine;
    var (proof, w) := SnapshotCallable(h, o, kind, v);
    var cells := proof.closureCells.cells;
    var bound := Bound(CellContents(h, cells));
    var v1 := SnapshotAll(h, bound, v).1;
    var v2 := SnapshotOptionalSequence(h, kind.defaults, v1).1;
    var v3 := SnapshotOptionalMapping(h, kind.kwdefaults, v2).1;
    var q := AllPristine(k, proof.closureCells.behaviors) && SequenceBehaviors(k, proof.defaultItems)
             && MappingBehaviors(k, proof.kwdefaultItems);
    assert Exact(h, k, v, v3, q) by {
      AllExact(h, k, bound, v);
      OptionalsExact(h, k, kind.defaults, kind.kwdefaults, v1);
      Chain(h, k, v, v1, v3, AllPristine(k, proof.closureCells.behaviors),
            SequenceBehaviors(k, proof.defaultItems) && MappingBehaviors(k, proof.kwdefaultItems));
    }
    var r := AllPristine(k, proof.attributes.behaviors) && AllPristine(k, proof.annotations.behaviors);
    assert Exact(h, k, v3, w, r) by { MappingsExact(h, k, kind.attributes, kind.annotations, v3); }
    Chain(h, k, v, v3, w, q, r);
  }

  lemma {:induction false} OptionalsExact(h: Heap, k: Heap, sequence: Option<Obj>, mapping: Option<Obj>, v: Visited)
    requires Typed(h) && Typed(k)
    ensures var (p, u) := SnapshotOptionalSequence(h, sequence, v);
            var (q, w) := SnapshotOptionalMapping(h, mapping, u);
            Exact(h, k, v, w, SequenceBehaviors(k, p) && MappingBehaviors(k, q))
    decreases Unseen(h, v), 4, 0
  {
    var (p, u) := SnapshotOptionalSequence(h, sequence, v);
    var (q, w) := SnapshotOptionalMapping(h, mapping, u);
    OptionalSequenceExact(h, k, sequence, v);
    OptionalMappingExact(h, k, mapping, u);
    Chain(h, k, v, u, w, SequenceBehaviors(k, p), MappingBehaviors(k, q));
  }

  lemma CallableFollowed(h: Heap, o: Obj, kind: Kind, v: Visited)
    requires kind.Function?
    ensures KindBehaviors(h, kind) + KindValues(h, kind) <= SnapshotCallable(h, o, kind, v).1.Keys
  {
    var cells := SnapshotCallable(h, o, kind, v).0.closureCells.cells;
    var v1 := SnapshotAll(h, Bound(CellContents(h, cells)), v).1;
    var v2 := SnapshotOptionalSequence(h, kind.defaults, v1).1;
    var v3 := SnapshotOptionalMapping(h, kind.kwdefaults, v2).1;
    CellTargets(h, cells);
    if kind.closure.Some? { assert cells == Elements(h, kind.closure.value); }
    if kind.defaults.Some? { ElementsVisited(h, kind.defaults.value, v1); }
    if kind.kwdefaults.Some? { ItemsVisited(h, kind.kwdefaults.value, v2); }
    ItemsVisited(h, kind.attributes, v3);
    ItemsVisited(h, kind.annotations, SnapshotMapping(h, kind.attributes, v3).1);
  }

  lemma {:induction false} MappingsExact(h: Heap, k: Heap, first: Obj, second: Obj, v: Visited)
    requires Typed(h) && Typed(k)
    ensures var (p, u) := SnapshotMapping(h, first, v);
            var (q, w) := SnapshotMapping(h, second, u);
            Exact(h, k, v, w, AllPristine(k, p.behaviors) && AllPristine(k, q.behaviors))
    decreases Unseen(h, v), 3, 0
  {
    var (p, u) := SnapshotMapping(h, first, v);
    var (q, w) := SnapshotMapping(h, second, u);
    MappingExact(h, k, first, v);
    MappingExact(h, k, second, u);
    Chain(h, k, v, u, w, AllPristine(k, p.behaviors), AllPristine(k, q.behaviors));
  }

  lemma CellTargets(h: Heap, cells: seq<Obj>)
    ensures forall c :: c in cells && c in h.cells ==> h.cells[c] in Bound(CellContents(h, cells))
  {
    forall c | c in cells && c in h.cells ensures Some(h.cells[c]) in CellContents(h, cells) {
      var i :| 0 <= i < |cells| && cells[i] == c;
      assert CellContents(h, cells)[i] == Some(h.cells[c]);
    }
  }

  /** Taken together, the checks of a callable pin every attribute of the function, and nothing more. */
  lemma CallableMeaning(h: Heap, k: Heap, o: Obj, kind: Kind, v: Visited)
    requires kind.Function? && TypedKind(h, kind)
    ensures var proof := SnapshotCallable(h, o, kind, v).0;
            CallablePristine(k, proof) <==> CallableBehaviors(k, proof) && HoldsKind(h, k, o, kind)
  {
    var proof := SnapshotCallable(h, o, kind, v).0;
    var cells := proof.closureCells.cells;
    assert proof.attributes.mapping == kind.attributes && proof.annotations.mapping == kind.annotations;
    assert proof.attributes.items == Items(h, kind.attributes) && proof.annotations.items == Items(h, kind.annotations);
    if CallablePristine(k, proof) {
      var f := k.kinds[o];
      assert f.Function? && f.code == kind.code && f.kwdefaults == kind.kwdefaults && f.closure == kind.closure;
      assert MappingPristine(k, f.attributes, proof.attributes) && MappingPristine(k, f.annotations, proof.annotations);
      assert OptionalSequencePristine(k, f.defaults, proof.defaultItems);
      if kind.defaults.Some? { assert SequencePristine(k, f.defaults.value, proof.defaultItems.value); }
      assert OptionalMappingPristine(k, f.kwdefaults, proof.kwdefaultItems);
      if kind.kwdefaults.Some? { assert MappingPristine(k, f.kwdefaults.value, proof.kwdefaultItems.value); }
      assert f == kind;
      assert CellsPristine(k, kind.closure, proof.closureCells);
      CellsKept(h, k, cells);
    }
    if CallableBehaviors(k, proof) && HoldsKind(h, k, o, kind) {
      CellsUnchanged(h, k, kind, proof.closureCells);
      assert MappingPristine(k, kind.attributes, proof.attributes)
        && MappingPristine(k, kind.annotations, proof.annotations);
      if kind.defaults.Some? { assert SequencePristine(k, kind.defaults.value, proof.defaultItems.value); }
      if kind.kwdefaults.Some? { assert MappingPristine(k, kind.kwdefaults.value, proof.kwdefaultItems.value); }
    }
  }

  lemma CellsKept(h: Heap, k: Heap, cells: seq<Obj>)
    requires CellContents(k, cells) == CellContents(h, cells)
    ensures forall c :: c in cells ==> Contents(k, c) == Contents(h, c)
  {
    forall c | c in cells ensures Contents(k, c) == Contents(h, c) {
      var i :| 0 <= i < |cells| && cells[i] == c;
      assert CellContents(k, cells)[i] == CellContents(h, cells)[i];
    }
  }

  lemma CellsUnchanged(h: Heap, k: Heap, kind: Kind, proof: CellsProof)
    requires kind.Function? && TypedKind(h, kind) && AllPristine(k, proof.behaviors)
    requires kind.closure.Some? ==> SameClosure(h, k, kind.closure.value)
    requires proof.cells == if kind.closure.Some? then Elements(h, kind.closure.value) else []
    requires proof.contents == CellContents(h, proof.cells)
    ensures CellsPristine(k, kind.closure, proof)
  {
    assert CellContents(k, proof.cells) == CellContents(h, proof.cells);
  }

  // ----- class dictionaries -----

  lemma {:induction false} LookupAt(dictionary: seq<(string, Obj)>, i: nat)
    requires DistinctNames(dictionary) && i < |dictionary|
    ensures Lookup(dictionary, dictionary[i].0) == Some(dictionary[i].1)
  {
    if i > 0 { LookupAt(dictionary[1..], i - 1); }
  }

  ghost function Names(dictionary: seq<(string, Obj)>): set<string> {
    set i | 0 <= i < |dictionary| :: dictionary[i].0
  }

  lemma {:induction false} NamesCounted(dictionary: seq<(string, Obj)>)
    requires DistinctNames(dictionary)
    ensures |Names(dictionary)| == |dictionary|
  {
    if dictionary != [] {
      var rest := dictionary[1..];
      NamesCounted(rest);
      assert forall i :: 0 <= i < |rest| ==> rest[i] == dictionary[i + 1];
      assert Names(dictionary) == {dictionary[0].0} + Names(rest);
    }
  }

  lemma {:induction false} LookupNames(dictionary: seq<(string, Obj)>, name: string)
    ensures Lookup(dictionary, name).Some? <==> name in Names(dictionary)
  {
    if dictionary != [] {
      var rest := dictionary[1..];
      LookupNames(rest, name);
      assert forall i :: 0 <= i < |rest| ==> rest[i] == dictionary[i + 1];
      assert Names(dictionary) == {dictionary[0].0} + Names(rest);
    }
  }

  lemma ClassDictSame(k: Heap, current: seq<(string, Obj)>, recorded: seq<(string, Obj)>)
    requires DistinctNames(current) && DistinctNames(recorded)
    requires ClassDictPristine(k, current, recorded)
    ensures SameClassDict(k, recorded, current)
  {
    NamesCounted(current);
    NamesCounted(recorded);
    forall name | name in Names(recorded) ensures name in Names(current) { LookupNames(current, name); }
    var extra := Names(current) - Names(recorded);
    assert |extra| == |current| - |recorded|;
    forall i | 0 <= i < |current| && Lookup(recorded, current[i].0).None?
      ensures || (current[i].0 == "__slotnames__" && current[i].1 in k.emptyLists)
              || (current[i].0 == "__annotations__" && current[i].1 in k.emptyDicts)
    {
      var name := current[i].0;
      LookupNames(recorded, name);
      LookupAt(current, i);
      assert name in extra;
      var cache := if Lookup(recorded, "__slotnames__").None? && EmptyEntry(current, "__slotnames__", k.emptyLists)
                   then "__slotnames__" else "__annotations__";
      LookupNames(recorded, cache);
      LookupNames(current, cache);
      assert {name, cache} <= extra;
      if name != cache { SubsetSize({name, cache}, extra); }
    }
  }

  lemma ClassDictAccepted(k: Heap, current: seq<(string, Obj)>, recorded: seq<(string, Obj)>)
    requires DistinctNames(current) && DistinctNames(recorded)
    requires SameClassDict(k, recorded, current)
    ensures ClassDictPristine(k, current, recorded)
  {
    if |current| == |recorded| + 1 {
      NamesCounted(current);
      NamesCounted(recorded);
      if Names(current) <= Names(recorded) { SubsetSize(Names(current), Names(recorded)); }
      var name :| name in Names(current) && name !in Names(recorded);
      var i :| 0 <= i < |current| && current[i].0 == name;
      LookupNames(recorded, name);
      LookupAt(current, i);
    }
  }

  lemma ClassDictMeaning(k: Heap, current: seq<(string, Obj)>, recorded: seq<(string, Obj)>)
    requires DistinctNames(current) && DistinctNames(recorded)
    ensures ClassDictPristine(k, current, recorded) <==> SameClassDict(k, recorded, current)
  {
    if ClassDictPristine(k, current, recorded) { ClassDictSame(k, current, recorded); }
    if SameClassDict(k, recorded, current) { ClassDictAccepted(k, current, recorded); }
  }

  lemma SubsetSize<T>(a: set<T>, b: set<T>)
    requires a <= b
    ensures |a| <= |b|
  {
    assert |b - a| == |b| - |a|;
  }

  // ----- main results -----

  /** Reachability along the edges the walk follows, with the mode each object was opened in. */
  ghost predicate FollowedPath(h: Heap, modes: Visited, path: seq<Obj>) {
    forall i :: 0 <= i < |path| - 1 ==>
      path[i] in modes && path[i + 1] in Followed(h, path[i], modes[path[i]])
  }

  /**
    Verification is exact: a proof taken in `h` is accepted in `k` if and only if every field
    recorded for every visited object holds the same object in `k`.
  */
  lemma AcceptedIffUnchanged(h: Heap, k: Heap, root: Obj)
    requires Typed(h) && Typed(k)
    ensures var (proof, modes) := Snapshot(h, root, map[]);
            Pristine(k, root, proof) <==> forall o :: o in modes ==> Holds(h, k, o, modes[o])
  {
    SnapshotExact(h, k, root, map[]);
  }

  /**
    Coverage: every object on every followed path from the root was visited, so an accepted proof
    pins shared and cyclic objects too, although their details are stored only once.
  */
  lemma AcceptedPinsEveryPath(h: Heap, k: Heap, root: Obj, path: seq<Obj>)
    requires Typed(h) && Typed(k)
    requires Pristine(k, root, Snapshot(h, root, map[]).0)
    requires path != [] && path[0] == root && FollowedPath(h, Snapshot(h, root, map[]).1, path)
    ensures var modes := Snapshot(h, root, map[]).1;
            forall o :: o in path ==> o in modes && Holds(h, k, o, modes[o])
  {
    var modes := Snapshot(h, root, map[]).1;
    SnapshotExact(h, k, root, map[]);
    forall i | 0 <= i < |path| ensures path[i] in modes { PathVisited(h, modes, path, i); }
  }

  lemma {:induction false} PathVisited(h: Heap, modes: Visited, path: seq<Obj>, i: nat)
    requires i < |path| && path[0] in modes && FollowedPath(h, modes, path)
    requires forall o :: o in modes ==> Followed(h, o, modes[o]) <= modes.Keys
    ensures path[i] in modes
  {
    if i > 0 {
      PathVisited(h, modes, path, i - 1);
      assert path[i - 1 + 1] in Followed(h, path[i - 1], modes[path[i - 1]]);
    }
  }

  /** In particular an unchanged heap is always accepted. */
  lemma UnchangedIsAccepted(h: Heap, root: Obj)
    requires Typed(h)
    ensures Pristine(h, root, Snapshot(h, root, map[]).0)
  {
    var modes := Snapshot(h, root, map[]).1;
    forall o | o in modes ensures Holds(h, h, o, modes[o]) {
      if o in h.kinds && h.kinds[o].Class? {
        assert TypedKind(h, h.kinds[o]);
        var d := h.kinds[o].dictionary;
        forall i | 0 <= i < |d| ensures Lookup(d, d[i].0) == Some(d[i].1) { LookupAt(d, i); }
        LookupAll(d);
      }
    }
    AcceptedIffUnchanged(h, h, root);
  }

  lemma LookupAll(dictionary: seq<(string, Obj)>)
    ensures forall i :: 0 <= i < |dictionary| ==> Lookup(dictionary, dictionary[i].0).Some?
  {
    forall i | 0 <= i < |dictionary| ensures Lookup(dictionary, dictionary[i].0).Some? {
      LookupNames(dictionary, dictionary[i].0);
    }
  }

  /**
    A limit of the check: only members present at snapshot time are recorded, so a descriptor
    that gains a setter afterwards is still accepted.
  */
  lemma AddedMemberIsNotNoticed(o: Obj, getter: Obj, setter: Obj)
    ensures var h := Heap(map[o := Descriptor(map["fget" := getter])], map[], map[], map[], {}, {});
            var k := Heap(map[o := Descriptor(map["fget" := getter, "fset" := setter])], map[], map[], map[], {}, {});
            Pristine(k, o, Snapshot(h, o, map[]).0)
  {
    var h := Heap(map[o := Descriptor(map["fget" := getter])], map[], map[], map[], {}, {});
    var k := Heap(map[o := Descriptor(map["fget" := getter, "fset" := setter])], map[], map[], map[], {}, {});
    var modes := Snapshot(h, o, map[]).1;
    forall x | x in modes ensures Holds(h, k, x, modes[x]) {
      if x in h.kinds { assert HoldsKind(h, k, x, h.kinds[x]); }
    }
    AcceptedIffUnchanged(h, k, o);
  }
}
