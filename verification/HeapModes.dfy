/**
  Which objects a behaviour snapshot opens as mappings. The walk decides by the order of its visits; the results
  here say what that comes to on the heap alone, so that they bind the walk from outside.
*/
module HeapModes {
  import opened Prelude
  import opened HeapProof

  /** An object met among `behaviors` or `values` may be opened this way: as a mapping only a value that has items. */
  ghost predicate Reason(h: Heap, x: Obj, mode: Mode, behaviors: set<Obj>, values: set<Obj>) {
    match mode
    case AsMapping => x in h.items && x in values
    case AsBehavior => x in behaviors || (x in values && x !in h.items)
  }

  /** An object visited in this stretch of the walk leads to `x`, and in a way that explains the mode. */
  ghost predicate Explains(h: Heap, v: Visited, w: Visited, o: Obj, x: Obj)
    requires x in w
  {
    && o in w && o !in v
    && Reason(h, x, w[x], BehaviorTargets(h, o, w[o]), ValueTargets(h, o, w[o]))
  }

  /** Every object a stretch of the walk opened was met in it, or among the objects the stretch was given. */
  ghost predicate Justified(h: Heap, v: Visited, w: Visited, behaviors: set<Obj>, values: set<Obj>) {
    forall x :: x in w && x !in v ==> Reason(h, x, w[x], behaviors, values) || exists o :: Explains(h, v, w, o, x)
  }

  lemma Wider(h: Heap, v: Visited, w: Visited, a: set<Obj>, b: set<Obj>, behaviors: set<Obj>, values: set<Obj>)
    requires Justified(h, v, w, a, b) && a <= behaviors && b <= values
    ensures Justified(h, v, w, behaviors, values)
  {
    hide Explains;
  }

  lemma Joined(h: Heap, u: Visited, v: Visited, w: Visited, a: set<Obj>, b: set<Obj>)
    requires Grown(u, v) && Grown(v, w) && Justified(h, u, v, a, b) && Justified(h, v, w, a, b)
    ensures Justified(h, u, w, a, b)
  {
    hide Reason;
    forall x | x in w && x !in u && !Reason(h, x, w[x], a, b) ensures exists o :: Explains(h, u, w, o, x) {
      if x in v {
        var o :| Explains(h, u, v, o, x);
        assert Explains(h, u, w, o, x);
      } else {
        var o :| Explains(h, v, w, o, x);
        assert Explains(h, u, w, o, x);
      }
    }
  }

  /** An object opened just before a stretch that its targets were given to. */
  lemma Opened(h: Heap, o: Obj, mode: Mode, v: Visited, w: Visited, behaviors: set<Obj>, values: set<Obj>)
    requires o !in v && Grown(v[o := mode], w)
    requires Justified(h, v[o := mode], w, BehaviorTargets(h, o, mode), ValueTargets(h, o, mode))
    requires Reason(h, o, mode, behaviors, values)
    ensures Justified(h, v, w, behaviors, values)
  {
    hide Reason;
    var v1 := v[o := mode];
    assert w[o] == mode;
    forall x | x in w && x !in v && !Reason(h, x, w[x], behaviors, values) ensures exists p :: Explains(h, v, w, p, x) {
      if Reason(h, x, w[x], BehaviorTargets(h, o, mode), ValueTargets(h, o, mode)) {
        assert Explains(h, v, w, o, x);
      } else {
        var p :| Explains(h, v1, w, p, x);
        assert Explains(h, v, w, p, x);
      }
    }
  }

  ghost function Objects(s: seq<Obj>): set<Obj> { set x | x in s }

  lemma {:induction false} SnapshotJustified(h: Heap, o: Obj, v: Visited)
    ensures Justified(h, v, Snapshot(h, o, v).1, {o}, {})
    decreases Unseen(h, v), 0, 0
  {
    hide Justified, BehaviorTargets, ValueTargets;
    if o in v {
      NothingOpened(h, v, {o}, {});
    } else {
      var v1 := v[o := AsBehavior];
      var w := Snapshot(h, o, v).1;
      if o !in h.kinds {
        NothingOpened(h, v1, BehaviorTargets(h, o, AsBehavior), ValueTargets(h, o, AsBehavior));
      } else {
        assert o in Unseen(h, v) && o !in Unseen(h, v1);
        KindJustified(h, o, v);
        KindTargets(h, o);
      }
      Opened(h, o, AsBehavior, v, w, {o}, {});
    }
  }

  lemma NothingOpened(h: Heap, v: Visited, a: set<Obj>, b: set<Obj>)
    ensures Justified(h, v, v, a, b)
  {
  }

  lemma KindTargets(h: Heap, o: Obj)
    requires o in h.kinds
    ensures BehaviorTargets(h, o, AsBehavior) == KindBehaviors(h, h.kinds[o])
    ensures ValueTargets(h, o, AsBehavior) == KindValues(h, h.kinds[o])
  {
  }

  lemma {:induction false} KindJustified(h: Heap, o: Obj, v: Visited)
    requires o in h.kinds && o !in v
    ensures Justified(h, v[o := AsBehavior], Snapshot(h, o, v).1, KindBehaviors(h, h.kinds[o]),
              KindValues(h, h.kinds[o]))
    decreases Unseen(h, v[o := AsBehavior]), 7, 0
  {
    hide Justified;
    var v1, a, b := v[o := AsBehavior], KindBehaviors(h, h.kinds[o]), KindValues(h, h.kinds[o]);
    match h.kinds[o]
    case Function(_, _, _, _, _, _) => CallableJustified(h, o, h.kinds[o], v1);
    case Partial(func, args, keywords) =>
      var v2 := Snapshot(h, func, v1).1;
      var v3 := SnapshotSequence(h, args, v2).1;
      var v4 := SnapshotOptionalMapping(h, keywords, v3).1;
      SnapshotJustified(h, func, v1);
      Wider(h, v1, v2, {func}, {}, a, b);
      SequenceJustified(h, args, v2, a, b);
      OptionalMappingJustified(h, keywords, v3, a, b);
      Joined(h, v1, v2, v3, a, b);
      Joined(h, v1, v3, v4, a, b);
    case Class(bases, dictionary) =>
      var v2 := SnapshotSequence(h, bases, v1).1;
      var v3 := SnapshotAll(h, EntryValues(dictionary), v2).1;
      SequenceJustified(h, bases, v1, a, b);
      AllJustified(h, EntryValues(dictionary), v2, a, b);
      Joined(h, v1, v2, v3, a, b);
    case Descriptor(members) => AllJustified(h, MemberObjects(members, Present(members, MEMBER_NAMES)), v1, a, b);
  }

  lemma {:induction false} CallableJustified(h: Heap, o: Obj, kind: Kind, v: Visited)
    requires kind.Function?
    ensures Justified(h, v, SnapshotCallable(h, o, kind, v).1, KindBehaviors(h, kind), KindValues(h, kind))
    decreases Unseen(h, v), 5, 0
  {
    hide Justified, KindBehaviors, KindValues, Grown;
    var a, b := KindBehaviors(h, kind), KindValues(h, kind);
    var cells := if kind.closure.Some? then Elements(h, kind.closure.value) else [];
    var bound := Bound(CellContents(h, cells));
    var v1 := SnapshotAll(h, bound, v).1;
    var v3 := SnapshotOptionalMapping(h, kind.kwdefaults, SnapshotOptionalSequence(h, kind.defaults, v1).1).1;
    var v4 := SnapshotMapping(h, kind.attributes, v3).1;
    FieldTargets(h, kind);
    BoundTargets(h, kind, cells);
    AllJustified(h, bound, v, a, b);
    OptionalsJustified(h, kind.defaults, kind.kwdefaults, v1, a, b) by { LessUnseen(h, v, v1); }
    GrownTwice(v, v1, v3);
    MappingJustified(h, kind.attributes, v3, a, b) by { LessUnseen(h, v, v3); }
    MappingJustified(h, kind.annotations, v4, a, b) by { GrownTwice(v, v3, v4); LessUnseen(h, v, v4); }
    Joined(h, v, v1, v3, a, b);
    GrownTwice(v, v3, v4);
    Joined(h, v, v3, v4, a, b);
    Joined(h, v, v4, SnapshotMapping(h, kind.annotations, v4).1, a, b);
  }

  lemma GrownTwice(u: Visited, v: Visited, w: Visited)
    requires Grown(u, v) && Grown(v, w)
    ensures Grown(u, w)
  {
  }

  lemma LessUnseen(h: Heap, v: Visited, w: Visited)
    requires Grown(v, w)
    ensures Unseen(h, w) <= Unseen(h, v)
  {
  }

  lemma FieldTargets(h: Heap, kind: Kind)
    requires kind.Function?
    ensures kind.defaults.Some? ==> ElementTargets(h, kind.defaults.value) <= KindBehaviors(h, kind)
    ensures kind.kwdefaults.Some? ==> ItemTargets(h, kind.kwdefaults.value) <= KindValues(h, kind)
    ensures ItemTargets(h, kind.attributes) <= KindValues(h, kind)
    ensures ItemTargets(h, kind.annotations) <= KindValues(h, kind)
  {
  }

  lemma {:induction false} OptionalsJustified(h: Heap, sequence: Option<Obj>, mapping: Option<Obj>, v: Visited,
    a: set<Obj>, b: set<Obj>)
    requires sequence.Some? ==> ElementTargets(h, sequence.value) <= a
    requires mapping.Some? ==> ItemTargets(h, mapping.value) <= b
    ensures var u := SnapshotOptionalSequence(h, sequence, v).1;
            var w := SnapshotOptionalMapping(h, mapping, u).1;
            Grown(v, w) && Justified(h, v, w, a, b)
    decreases Unseen(h, v), 4, 0
  {
    hide Justified;
    var u := SnapshotOptionalSequence(h, sequence, v).1;
    var w := SnapshotOptionalMapping(h, mapping, u).1;
    if sequence.Some? { SequenceJustified(h, sequence.value, v, a, b); } else { NothingOpened(h, v, a, b); }
    OptionalMappingJustified(h, mapping, u, a, b);
    Joined(h, v, u, w, a, b);
  }

  lemma BoundTargets(h: Heap, kind: Kind, cells: seq<Obj>)
    requires kind.Function? && cells == if kind.closure.Some? then Elements(h, kind.closure.value) else []
    ensures Objects(Bound(CellContents(h, cells))) <= KindBehaviors(h, kind)
  {
    forall x | x in Bound(CellContents(h, cells)) ensures x in KindBehaviors(h, kind) {
      var i :| 0 <= i < |cells| && CellContents(h, cells)[i] == Some(x);
      assert cells[i] in cells && cells[i] in h.cells && h.cells[cells[i]] == x;
    }
  }

  lemma {:induction false} AllJustified(h: Heap, objects: seq<Obj>, v: Visited, a: set<Obj>, b: set<Obj>)
    requires Objects(objects) <= a
    ensures Justified(h, v, SnapshotAll(h, objects, v).1, a, b)
    decreases Unseen(h, v), 1, |objects|
  {
    hide Justified;
    if objects == [] {
      NothingOpened(h, v, a, b);
    } else {
      var v1 := Snapshot(h, objects[0], v).1;
      var v2 := SnapshotAll(h, objects[1..], v1).1;
      SnapshotJustified(h, objects[0], v);
      assert objects[0] in a && Objects(objects[1..]) <= a;
      Wider(h, v, v1, {objects[0]}, {}, a, b);
      AllJustified(h, objects[1..], v1, a, b);
      Joined(h, v, v1, v2, a, b);
    }
  }

  lemma {:induction false} ValuesJustified(h: Heap, objects: seq<Obj>, v: Visited, a: set<Obj>, b: set<Obj>)
    requires Objects(objects) <= b
    ensures Justified(h, v, SnapshotValues(h, objects, v).1, a, b)
    decreases Unseen(h, v), 1, |objects|
  {
    hide Justified;
    if objects == [] {
      NothingOpened(h, v, a, b);
    } else {
      var o := objects[0];
      assert o in b && Objects(objects[1..]) <= b;
      var v1;
      if o in h.items && o !in v {
        v1 := SnapshotMapping(h, o, v[o := AsMapping]).1;
        assert o in Unseen(h, v) && o !in Unseen(h, v[o := AsMapping]);
        MappingJustified(h, o, v[o := AsMapping], {}, ItemTargets(h, o));
        Opened(h, o, AsMapping, v, v1, a, b);
      } else {
        v1 := Snapshot(h, o, v).1;
        ValueAsBehavior(h, o, v, a, b);
      }
      ValuesJustified(h, objects[1..], v1, a, b);
      Joined(h, v, v1, SnapshotValues(h, objects, v).1, a, b);
    }
  }

  /** A value without items, or one that was visited before, goes by its type. */
  lemma {:induction false} ValueAsBehavior(h: Heap, o: Obj, v: Visited, a: set<Obj>, b: set<Obj>)
    requires o in b && (o in h.items ==> o in v)
    ensures Justified(h, v, Snapshot(h, o, v).1, a, b)
    decreases Unseen(h, v), 1, 0
  {
    if o !in v {
      SnapshotJustified(h, o, v);
      hide Explains;
    }
  }

  lemma {:induction false} SequenceJustified(h: Heap, sequence: Obj, v: Visited, a: set<Obj>, b: set<Obj>)
    requires ElementTargets(h, sequence) <= a
    ensures Justified(h, v, SnapshotSequence(h, sequence, v).1, a, b)
    decreases Unseen(h, v), 2, 0
  {
    AllJustified(h, Elements(h, sequence), v, a, b);
  }

  lemma {:induction false} MappingJustified(h: Heap, mapping: Obj, v: Visited, a: set<Obj>, b: set<Obj>)
    requires ItemTargets(h, mapping) <= b
    ensures Justified(h, v, SnapshotMapping(h, mapping, v).1, a, b)
    decreases Unseen(h, v), 2, 0
  {
    var items := Items(h, mapping);
    forall x | x in Values(items) ensures x in ItemTargets(h, mapping) {
      var i :| 0 <= i < |items| && Values(items)[i] == x;
      assert items[i] in items;
    }
    ValuesJustified(h, Values(items), v, a, b);
  }

  lemma {:induction false} OptionalMappingJustified(h: Heap, mapping: Option<Obj>, v: Visited, a: set<Obj>, b: set<Obj>)
    requires mapping.Some? ==> ItemTargets(h, mapping.value) <= b
    ensures Justified(h, v, SnapshotOptionalMapping(h, mapping, v).1, a, b)
    decreases Unseen(h, v), 3, 0
  {
    if mapping.Some? { MappingJustified(h, mapping.value, v, a, b); } else { NothingOpened(h, v, a, b); }
  }

  // ----- main results -----

  /** Some visited object has `x` as a value of one of its mappings. */
  ghost predicate MetAsValue(h: Heap, modes: Visited, x: Obj) {
    exists o :: o in modes && x in ValueTargets(h, o, modes[o])
  }

  /** Some visited object leads to `x` in another way. */
  ghost predicate MetAsBehavior(h: Heap, modes: Visited, x: Obj) {
    exists o :: o in modes && x in BehaviorTargets(h, o, modes[o])
  }

  /**
    What is opened as a mapping: only a value of a followed mapping that has items; and every such value, unless
    it is the root or some visited object leads to it in another way as well.
  */
  lemma OpenedAsMapping(h: Heap, root: Obj, x: Obj)
    requires Typed(h)
    ensures var modes := Snapshot(h, root, map[]).1;
            && (x in modes && modes[x] == AsMapping ==> x in h.items && MetAsValue(h, modes, x))
            && (x in h.items && MetAsValue(h, modes, x) && x != root && !MetAsBehavior(h, modes, x) ==>
                  x in modes && modes[x] == AsMapping)
  {
    var modes := Snapshot(h, root, map[]).1;
    SnapshotJustified(h, root, map[]);
    SnapshotExact(h, h, root, map[]);
    hide Pristine, BehaviorTargets, ValueTargets;
    if MetAsValue(h, modes, x) {
      var o :| o in modes && x in ValueTargets(h, o, modes[o]);
      assert x in Followed(h, o, modes[o]);
    }
    if x in modes && !Reason(h, x, modes[x], {root}, {}) {
      var o :| Explains(h, map[], modes, o, x);
      assert o in modes;
    }
  }

  /** So an accepted proof pins the items of every such value. */
  lemma ValuesPinned(h: Heap, k: Heap, root: Obj, x: Obj)
    requires Typed(h) && Typed(k) && Pristine(k, root, Snapshot(h, root, map[]).0)
    requires var modes := Snapshot(h, root, map[]).1;
             x in h.items && x != root && MetAsValue(h, modes, x) && !MetAsBehavior(h, modes, x)
    ensures x in k.items && k.items[x] == h.items[x]
  {
    OpenedAsMapping(h, root, x);
    AcceptedIffUnchanged(h, k, root);
    hide Pristine, MetAsValue, MetAsBehavior;
    var modes := Snapshot(h, root, map[]).1;
    assert Holds(h, k, x, modes[x]);
  }

  /** In the order of the walk: a value that has items and was not visited when its turn came is opened as a mapping. */
  lemma {:induction false} OpenedInTurn(h: Heap, objects: seq<Obj>, v: Visited, i: nat)
    requires i < |objects| && objects[i] in h.items && objects[i] !in SnapshotValues(h, objects[..i], v).1
    ensures objects[i] in SnapshotValues(h, objects, v).1 && SnapshotValues(h, objects, v).1[objects[i]] == AsMapping
  {
    var o := objects[0];
    var v1 := if o in h.items && o !in v then SnapshotMapping(h, o, v[o := AsMapping]).1 else Snapshot(h, o, v).1;
    if i > 0 {
      assert objects[..i][0] == o && objects[..i][1..] == objects[1..][..i - 1];
      OpenedInTurn(h, objects[1..], v1, i - 1);
    }
  }

  /** A change inside a dictionary that is an attribute of a function is noticed. */
  lemma NestedChangeIsNoticed(h: Heap, k: Heap, callee: Obj, attributes: Obj, nested: Obj, code: Obj, name: Obj)
    requires Typed(h) && Typed(k) && callee != nested && attributes in h.items
    requires h.kinds == map[callee := Function(code, None, None, None, attributes, attributes)]
    requires h.items[attributes] == [(name, nested)] && nested in h.items
    requires nested !in k.items || k.items[nested] != h.items[nested]
    ensures !Pristine(k, callee, Snapshot(h, callee, map[]).0)
  {
    var modes := Snapshot(h, callee, map[]).1;
    assert Items(h, attributes)[0] == (name, nested);
    assert nested in ValueTargets(h, callee, AsBehavior);
    assert callee in modes && modes[callee] == AsBehavior by { FirstVisit(h, callee); }
    if Pristine(k, callee, Snapshot(h, callee, map[]).0) {
      assert MetAsValue(h, modes, nested);
      assert forall o, mode :: BehaviorTargets(h, o, mode) == {};
      ValuesPinned(h, k, callee, nested);
    }
  }

  /** What the walk follows from an object it opened by its type, field by field. */
  lemma VisitedNext(h: Heap, root: Obj, o: Obj)
    requires Typed(h) && o in h.kinds && o in Snapshot(h, root, map[]).1 && Snapshot(h, root, map[]).1[o] == AsBehavior
    ensures var modes := Snapshot(h, root, map[]).1;
            match h.kinds[o]
            case Function(_, defaults, kwdefaults, closure, attributes, annotations) =>
              && (forall p :: p in h.items[attributes] || p in h.items[annotations] ==> p.1 in modes)
              && (kwdefaults.Some? ==> forall p :: p in h.items[kwdefaults.value] ==> p.1 in modes)
              && (defaults.Some? ==> forall x :: x in h.tuples[defaults.value] ==> x in modes)
              && (closure.Some? ==> forall c :: c in h.tuples[closure.value] && c in h.cells ==> h.cells[c] in modes)
            case Partial(func, args, keywords) =>
              && func in modes && (forall x :: x in h.tuples[args] ==> x in modes)
              && (keywords.Some? ==> forall p :: p in h.items[keywords.value] ==> p.1 in modes)
            case Class(bases, dictionary) =>
              (forall x :: x in h.tuples[bases] ==> x in modes) && (forall p :: p in dictionary ==> p.1 in modes)
            case Descriptor(members) =>
              forall name :: name in {"__func__", "fget", "fset", "fdel"} && name in members ==> members[name] in modes
  {
    var modes := Snapshot(h, root, map[]).1;
    SnapshotExact(h, h, root, map[]);
    assert Followed(h, o, AsBehavior) <= modes.Keys && TypedKind(h, h.kinds[o]);
    hide Pristine, Snapshot;
    match h.kinds[o]
    case Function(_, defaults, kwdefaults, closure, attributes, annotations) =>
      forall p | p in h.items[attributes] ensures p.1 in modes { assert p.1 in ItemTargets(h, attributes); }
      forall p | p in h.items[annotations] ensures p.1 in modes { assert p.1 in ItemTargets(h, annotations); }
      if kwdefaults.Some? {
        forall p | p in h.items[kwdefaults.value] ensures p.1 in modes {
          assert p.1 in ItemTargets(h, kwdefaults.value);
        }
      }
      if defaults.Some? {
        forall x | x in h.tuples[defaults.value] ensures x in modes { assert x in ElementTargets(h, defaults.value); }
      }
    case Partial(_, args, keywords) =>
      forall x | x in h.tuples[args] ensures x in modes { assert x in ElementTargets(h, args); }
      if keywords.Some? {
        forall p | p in h.items[keywords.value] ensures p.1 in modes { assert p.1 in ItemTargets(h, keywords.value); }
      }
    case Class(bases, _) =>
      forall x | x in h.tuples[bases] ensures x in modes { assert x in ElementTargets(h, bases); }
    case Descriptor(_) =>
  }

  /** What an accepted proof pins of such an object, field by field. */
  lemma AcceptedPins(h: Heap, k: Heap, root: Obj, o: Obj)
    requires Typed(h) && Typed(k) && Pristine(k, root, Snapshot(h, root, map[]).0)
    requires o in h.kinds && o in Snapshot(h, root, map[]).1 && Snapshot(h, root, map[]).1[o] == AsBehavior
    ensures o in k.kinds || (h.kinds[o].Descriptor? && {"__func__", "fget", "fset", "fdel"} !! h.kinds[o].members.Keys)
    ensures match h.kinds[o]
            case Function(code, defaults, kwdefaults, closure, attributes, annotations) =>
              && k.kinds[o] == h.kinds[o]
              && k.items[attributes] == h.items[attributes] && k.items[annotations] == h.items[annotations]
              && (kwdefaults.Some? ==> k.items[kwdefaults.value] == h.items[kwdefaults.value])
              && (defaults.Some? ==> k.tuples[defaults.value] == h.tuples[defaults.value])
              && (closure.Some? ==>
                    && k.tuples[closure.value] == h.tuples[closure.value]
                    && forall c :: c in h.tuples[closure.value] ==>
                         (c in k.cells <==> c in h.cells) && (c in h.cells ==> k.cells[c] == h.cells[c]))
            case Partial(func, args, keywords) =>
              && k.kinds[o] == h.kinds[o] && k.tuples[args] == h.tuples[args]
              && (keywords.Some? ==> k.items[keywords.value] == h.items[keywords.value])
            case Class(bases, dictionary) =>
              && k.kinds[o].Class? && k.kinds[o].bases == bases && k.tuples[bases] == h.tuples[bases]
              && (forall p :: p in dictionary ==> p in k.kinds[o].dictionary)
            case Descriptor(members) =>
              forall name :: name in {"__func__", "fget", "fset", "fdel"} && name in members ==>
                k.kinds[o].Descriptor? && name in k.kinds[o].members && k.kinds[o].members[name] == members[name]
  {
    var modes := Snapshot(h, root, map[]).1;
    AcceptedIffUnchanged(h, k, root);
    hide Pristine, Snapshot;
    assert Holds(h, k, o, AsBehavior) && TypedKind(h, h.kinds[o]);
    match h.kinds[o]
    case Function(_, _, _, closure, _, _) =>
      assert TypedKind(k, k.kinds[o]);
      if closure.Some? {
        forall c | c in h.tuples[closure.value]
          ensures (c in k.cells <==> c in h.cells) && (c in h.cells ==> k.cells[c] == h.cells[c])
        {
          assert Contents(k, c) == Contents(h, c);
        }
      }
    case Class(_, dictionary) =>
      forall p | p in dictionary ensures p in k.kinds[o].dictionary {
        var i :| 0 <= i < |dictionary| && dictionary[i] == p;
        LookupMember(k.kinds[o].dictionary, p.0);
      }
    case Partial(_, _, _) =>
    case Descriptor(members) =>
      forall name | name in {"__func__", "fget", "fset", "fdel"} && name in members
        ensures MemberHolds(k, o, name, members[name])
      {
        assert name in MEMBER_NAMES;
      }
  }

  lemma {:induction false} LookupMember(dictionary: seq<(string, Obj)>, name: string)
    ensures Lookup(dictionary, name).Some? ==> (name, Lookup(dictionary, name).value) in dictionary
  {
    if dictionary != [] { LookupMember(dictionary[1..], name); }
  }

  lemma FirstVisit(h: Heap, root: Obj)
    ensures Snapshot(h, root, map[]).1[root] == AsBehavior
  {
  }
}
