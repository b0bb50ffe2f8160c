/** The variable store: a linked list with a prefix test for updates (src/variables.c). */
module Variables {

  datatype Binding = Binding(key: string, value: string)

  // ---------------------------------------------------------------- the list as a value, newest first

  /** The newest binding whose key has `key` as a prefix, or |bs|: what strncmp(..., strlen(key)) finds. */
  function FirstExtending(bs: seq<Binding>, key: string): (i: nat)
    ensures i <= |bs| && (i < |bs| ==> key <= bs[i].key) && forall j :: 0 <= j < i ==> !(key <= bs[j].key)
  {
    if bs == [] || key <= bs[0].key then 0 else 1 + FirstExtending(bs[1..], key)
  }

  function Set(bs: seq<Binding>, key: string, value: string): seq<Binding> {
    var i := FirstExtending(bs, key);
    if i < |bs| then bs[i := bs[i].(value := value)] else [Binding(key, value)] + bs
  }

  function FirstEqual(bs: seq<Binding>, key: string): (i: nat)
    ensures i <= |bs| && (i < |bs| ==> key == bs[i].key) && forall j :: 0 <= j < i ==> key != bs[j].key
  {
    if bs == [] || key == bs[0].key then 0 else 1 + FirstEqual(bs[1..], key)
  }

  function Lookup(bs: seq<Binding>, key: string): string {
    var i := FirstEqual(bs, key);
    if i < |bs| then bs[i].value else ""
  }

  predicate Stored(bs: seq<Binding>, key: string) { exists b :: b in bs && b.key == key }

  /** No newer key is a prefix of an older one. */
  predicate NoShadow(bs: seq<Binding>) {
    forall i, j :: 0 <= i < j < |bs| ==> !(bs[i].key <= bs[j].key)
  }

  /** The key whose value an assignment to `key` changes. */
  function Target(bs: seq<Binding>, key: string): string {
    var i := FirstExtending(bs, key);
    if i < |bs| then bs[i].key else key
  }

  predicate StrictlyExtends(long: string, short: string) { short <= long && short != long }

  lemma SetKeepsNoShadow(bs: seq<Binding>, key: string, value: string)
    requires NoShadow(bs)
    ensures NoShadow(Set(bs, key, value))
  {
    var i := FirstExtending(bs, key);
    var bs' := Set(bs, key, value);
    if i < |bs| {
      assert forall k :: 0 <= k < |bs| ==> bs'[k].key == bs[k].key;
    } else {
      assert forall k :: 1 <= k < |bs'| ==> bs'[k] == bs[k - 1];
    }
  }

  /** So lookups have one candidate. */
  lemma KeysDistinct(bs: seq<Binding>)
    requires NoShadow(bs)
    ensures forall i, j :: 0 <= i < j < |bs| ==> bs[i].key != bs[j].key
  {
  }

  lemma LookupAt(bs: seq<Binding>, i: nat)
    requires NoShadow(bs) && i < |bs|
    ensures Lookup(bs, bs[i].key) == bs[i].value
  {
    KeysDistinct(bs);
    var k := FirstEqual(bs, bs[i].key);
    assert k <= i && bs[k].key == bs[i].key;
  }

  lemma LookupNone(bs: seq<Binding>, key: string)
    ensures Stored(bs, key) || Lookup(bs, key) == ""
  {
    var i := FirstEqual(bs, key);
    if i < |bs| {
      assert bs[i] in bs;
    }
  }

  lemma LookupIs(bs: seq<Binding>, key: string)
    ensures Lookup(bs, key) == if FirstEqual(bs, key) < |bs| then bs[FirstEqual(bs, key)].value else ""
  {
  }

  /** An assignment changes what is found under exactly one key. */
  lemma SetChangesTarget(bs: seq<Binding>, key: string, value: string, k: string)
    requires NoShadow(bs)
    ensures Lookup(Set(bs, key, value), k) == if k == Target(bs, key) then value else Lookup(bs, k)
  {
    hide Lookup, NoShadow;
    var i := FirstExtending(bs, key);
    var bs' := Set(bs, key, value);
    SetKeepsNoShadow(bs, key, value);
    var t := if i < |bs| then i else 0;
    LookupAt(bs', t);
    if k != Target(bs, key) {
      var j := FirstEqual(bs, k);
      LookupIs(bs, k);
      if j < |bs| {
        LookupAt(bs', if i < |bs| then j else j + 1);
      } else {
        forall b | b in bs'
          ensures b.key != k
        {
          var m :| 0 <= m < |bs'| && bs'[m] == b;
          assert i < |bs| ==> bs'[m].key == bs[m].key;
          assert i == |bs| && m > 0 ==> bs'[m] == bs[m - 1];
        }
        LookupNone(bs', k);
      }
    }
  }

  /** Assigning to `key` acts as a map update, whatever the value. */
  ghost predicate ActsAsUpdate(bs: seq<Binding>, key: string) {
    forall value, k {:trigger Lookup(Set(bs, key, value), k)} ::
      Lookup(Set(bs, key, value), k) == if k == key then value else Lookup(bs, k)
  }

  lemma UpdateAt(bs: seq<Binding>, key: string, value: string, k: string)
    requires ActsAsUpdate(bs, key)
    ensures Lookup(Set(bs, key, value), k) == if k == key then value else Lookup(bs, k)
  {
  }

  /** An assignment is a map update exactly when no stored key strictly extends the assigned one. */
  lemma SetIsUpdateIff(bs: seq<Binding>, key: string)
    requires NoShadow(bs)
    ensures ActsAsUpdate(bs, key) <==> forall b :: b in bs ==> !StrictlyExtends(b.key, key)
  {
    TargetIsKeyIff(bs, key);
    var t := Target(bs, key);
    if t == key {
      forall value, k
        ensures Lookup(Set(bs, key, value), k) == if k == key then value else Lookup(bs, k)
      {
        SetChangesTarget(bs, key, value, k);
      }
    } else {
      var v := Lookup(bs, t) + "x";
      assert |v| == |Lookup(bs, t)| + 1;
      SetChangesTarget(bs, key, v, t);
      if ActsAsUpdate(bs, key) {
        UpdateAt(bs, key, v, t);
      }
    }
  }

  lemma TargetIsKeyIff(bs: seq<Binding>, key: string)
    requires NoShadow(bs)
    ensures Target(bs, key) == key <==> forall b :: b in bs ==> !StrictlyExtends(b.key, key)
  {
    var i := FirstExtending(bs, key);
    if i < |bs| {
      assert bs[i] in bs;
      if b :| b in bs && StrictlyExtends(b.key, key) {
        var j :| 0 <= j < |bs| && bs[j] == b;
        assert i <= j;
        if i < j {
          assert !(bs[i].key <= bs[j].key);
        }
      }
    } else {
      forall b | b in bs
        ensures !StrictlyExtends(b.key, key)
      {
        var j :| 0 <= j < |bs| && bs[j] == b;
      }
    }
  }

  // ---------------------------------------------------------------- histories

  /** The store after the assignments `ops`, oldest first. */
  function Replay(ops: seq<Binding>): seq<Binding> {
    if ops == [] then []
    else
      var op := ops[|ops| - 1];
      Set(Replay(ops[..|ops| - 1]), op.key, op.value)
  }

  /** The finite map those assignments denote. */
  function Meaning(ops: seq<Binding>): map<string, string> {
    if ops == [] then map[]
    else
      var op := ops[|ops| - 1];
      Meaning(ops[..|ops| - 1])[op.key := op.value]
  }

  ghost predicate Refines(bs: seq<Binding>, m: map<string, string>) {
    && (forall k :: Stored(bs, k) <==> k in m)
    && forall k :: Lookup(bs, k) == if k in m then m[k] else ""
  }

  /** No name is assigned after a strict extension of it was. */
  predicate LongNamesLater(names: seq<string>) {
    forall i, j :: 0 <= i < j < |names| ==> !StrictlyExtends(names[i], names[j])
  }

  function Names(ops: seq<Binding>): seq<string> { seq(|ops|, i requires 0 <= i < |ops| => ops[i].key) }

  lemma {:induction false} ReplayNoShadow(ops: seq<Binding>)
    ensures NoShadow(Replay(ops))
    ensures forall b :: b in Replay(ops) ==> b.key in Names(ops)
  {
    if ops != [] {
      var front, op := ops[..|ops| - 1], ops[|ops| - 1];
      ReplayNoShadow(front);
      SetKeepsNoShadow(Replay(front), op.key, op.value);
      assert forall i :: 0 <= i < |front| ==> Names(front)[i] == Names(ops)[i];
      assert Names(ops)[|front|] == op.key;
      forall b | b in Replay(ops)
        ensures b.key in Names(ops)
      {
        SetKeys(Replay(front), op.key, op.value, b.key);
      }
    }
  }

  lemma SetKeys(bs: seq<Binding>, key: string, value: string, k: string)
    ensures Stored(Set(bs, key, value), k) <==> Stored(bs, k) || k == Target(bs, key)
  {
    var i := FirstExtending(bs, key);
    var bs' := Set(bs, key, value);
    if i < |bs| {
      assert forall j :: 0 <= j < |bs| ==> bs'[j].key == bs[j].key;
      if b :| b in bs && b.key == k {
        var j :| 0 <= j < |bs| && bs[j] == b;
        assert bs'[j] in bs';
      }
      if b :| b in bs' && b.key == k {
        var j :| 0 <= j < |bs'| && bs'[j] == b;
        assert bs[j] in bs;
      }
      assert bs'[i] in bs';
    } else {
      assert Binding(key, value) in bs';
      assert forall b :: b in bs' <==> b == Binding(key, value) || b in bs;
    }
  }

  lemma RefineStep(bs: seq<Binding>, m: map<string, string>, key: string, value: string)
    requires NoShadow(bs) && Refines(bs, m) && Target(bs, key) == key
    ensures Refines(Set(bs, key, value), m[key := value])
  {
    forall k
      ensures Stored(Set(bs, key, value), k) <==> k in m[key := value]
      ensures Lookup(Set(bs, key, value), k) == if k in m[key := value] then m[key := value][k] else ""
    {
      SetKeys(bs, key, value, k);
      SetChangesTarget(bs, key, value, k);
    }
  }

  lemma {:induction false} SafeHistoryRefines(ops: seq<Binding>)
    requires LongNamesLater(Names(ops))
    ensures Refines(Replay(ops), Meaning(ops))
  {
    if ops != [] {
      var front, op := ops[..|ops| - 1], ops[|ops| - 1];
      assert forall i :: 0 <= i < |front| ==> Names(front)[i] == Names(ops)[i];
      SafeHistoryRefines(front);
      ReplayNoShadow(front);
      forall b | b in Replay(front)
        ensures !StrictlyExtends(b.key, op.key)
      {
        var i :| 0 <= i < |front| && Names(front)[i] == b.key;
        assert !StrictlyExtends(Names(ops)[i], Names(ops)[|front|]);
      }
      TargetIsKeyIff(Replay(front), op.key);
      RefineStep(Replay(front), Meaning(front), op.key, op.value);
    }
  }

  /** A history of `names`: value "a" everywhere but "b" in the last place. */
  function Telling(names: seq<string>): (ops: seq<Binding>)
    ensures |ops| == |names| && Names(ops) == names
  {
    seq(|names|, i requires 0 <= i < |names| => Binding(names[i], if i == |names| - 1 then "b" else "a"))
  }

  lemma {:induction false} MeaningAllA(ops: seq<Binding>, k: string)
    requires forall op :: op in ops ==> op.value == "a"
    ensures k in Meaning(ops) ==> Meaning(ops)[k] == "a"
  {
    if ops != [] {
      MeaningAllA(ops[..|ops| - 1], k);
    }
  }

  lemma RefinesKeys(bs: seq<Binding>, m: map<string, string>, k: string)
    requires Refines(bs, m)
    ensures Stored(bs, k) <==> k in m
  {
  }

  /** One assignment to a name of which a strict extension is stored, with a new value. */
  lemma UnsafeSetFails(bs: seq<Binding>, m: map<string, string>, key: string, value: string)
    requires NoShadow(bs) && Refines(bs, m) && Target(bs, key) != key
    requires forall k :: k in m ==> m[k] != value
    ensures !Refines(Set(bs, key, value), m[key := value])
  {
    var t := Target(bs, key);
    assert bs[FirstExtending(bs, key)] in bs;
    assert Stored(bs, t);
    SetChangesTarget(bs, key, value, t);
    assert Lookup(Set(bs, key, value), t) == value != m[key := value][t];
  }

  lemma LastIsUnsafe(names: seq<string>)
    requires names != [] && LongNamesLater(names[..|names| - 1]) && !LongNamesLater(names)
    ensures exists i :: 0 <= i < |names| - 1 && StrictlyExtends(names[i], names[|names| - 1])
  {
    var n := |names| - 1;
    var front := names[..n];
    forall i, j | 0 <= i < j < n
      ensures !StrictlyExtends(names[i], names[j])
    {
      assert front[i] == names[i] && front[j] == names[j];
    }
    var i, j :| 0 <= i < j < |names| && StrictlyExtends(names[i], names[j]);
  }

  /** The first name that is assigned after a strict extension of it spoils the refinement at that point. */
  lemma UnsafeStepFails(names: seq<string>)
    requires names != [] && LongNamesLater(names[..|names| - 1]) && !LongNamesLater(names)
    ensures !Refines(Replay(Telling(names)), Meaning(Telling(names)))
  {
    hide LongNamesLater, Target, Set, Replay, Meaning, NoShadow, Refines, FirstExtending, Stored;
    var n := |names| - 1;
    var front, key := Telling(names)[..n], names[n];
    assert Names(front) == names[..n];
    SafeHistoryRefines(front);
    ReplayNoShadow(front);
    LastIsUnsafe(names);
    var i :| 0 <= i < n && StrictlyExtends(names[i], names[n]);
    assert front[i].key == names[i];
    MeaningHas(front, i);
    assert Stored(Replay(front), names[i]) by {
      RefinesKeys(Replay(front), Meaning(front), names[i]);
    }
    TargetIsKeyIff(Replay(front), key);
    AllValuesA(names);
    StoredExtension(Replay(front), names[i], key);
    UnsafeSetFails(Replay(front), Meaning(front), key, "b");
    LastAssignment(Telling(names));
  }

  lemma AllValuesA(names: seq<string>)
    requires names != []
    ensures var front := Telling(names)[..|names| - 1];
      forall k :: k in Meaning(front) ==> Meaning(front)[k] != "b"
  {
    var front := Telling(names)[..|names| - 1];
    forall k | k in Meaning(front)
      ensures Meaning(front)[k] != "b"
    {
      assert forall op :: op in front ==> op.value == "a";
      MeaningAllA(front, k);
    }
  }

  lemma StoredExtension(bs: seq<Binding>, long: string, key: string)
    requires Stored(bs, long) && StrictlyExtends(long, key)
    ensures exists b :: b in bs && StrictlyExtends(b.key, key)
  {
  }

  lemma LastAssignment(ops: seq<Binding>)
    requires ops != []
    ensures var front, op := ops[..|ops| - 1], ops[|ops| - 1];
      Replay(ops) == Set(Replay(front), op.key, op.value) && Meaning(ops) == Meaning(front)[op.key := op.value]
  {
  }

  lemma {:induction false} MeaningHas(ops: seq<Binding>, i: nat)
    requires i < |ops|
    ensures ops[i].key in Meaning(ops)
  {
    if i < |ops| - 1 {
      MeaningHas(ops[..|ops| - 1], i);
    }
  }

  /** The list behaves as a finite map throughout, whatever the values, exactly for the orders of names in which
      no name comes after a strict extension of it; prefix-free names are a special case. */
  lemma HistoryRefinesIff(names: seq<string>)
    ensures (forall n: nat, ops :: n <= |names| && Names(ops) == names[..n] ==> Refines(Replay(ops), Meaning(ops)))
      <==> LongNamesLater(names)
  {
    if LongNamesLater(names) {
      forall n: nat, ops | n <= |names| && Names(ops) == names[..n]
        ensures Refines(Replay(ops), Meaning(ops))
      {
        assert LongNamesLater(names[..n]);
        SafeHistoryRefines(ops);
      }
    } else {
      var n := FirstUnsafe(names);
      UnsafeStepFails(names[..n]);
      assert Names(Telling(names[..n])) == names[..n];
    }
  }

  lemma {:induction false} FirstUnsafe(names: seq<string>) returns (n: nat)
    requires !LongNamesLater(names)
    ensures 0 < n <= |names| && !LongNamesLater(names[..n]) && LongNamesLater(names[..n][..n - 1])
  {
    n := |names|;
    assert names[..n] == names;
    while !LongNamesLater(names[..n][..n - 1])
      invariant 0 < n <= |names| && !LongNamesLater(names[..n])
      decreases n
    {
      assert names[..n][..n - 1] == names[..n - 1];
      n := n - 1;
    }
  }

  // ---------------------------------------------------------------- the linked list

  class Node {
    const key: string
    var value: string
    const next: Node?

    constructor (key: string, value: string, next: Node?)
      ensures this.key == key && this.value == value && this.next == next
    {
      this.key, this.value, this.next := key, value, next;
    }
  }

  class Store {
    var head: Node?
    ghost var nodes: seq<Node>

    ghost predicate Valid()
      reads this
    {
      && head == (if nodes == [] then null else nodes[0])
      && (forall i :: 0 <= i < |nodes| - 1 ==> nodes[i].next == nodes[i+1])
      && (nodes != [] ==> nodes[|nodes| - 1].next == null)
      && (forall i, j :: 0 <= i < j < |nodes| ==> nodes[i] != nodes[j])
    }

    ghost function Bindings(): seq<Binding>
      reads this, nodes
    {
      seq(|nodes|, i requires 0 <= i < |nodes| reads this, nodes => Binding(nodes[i].key, nodes[i].value))
    }

    constructor ()
      ensures Valid() && Bindings() == []
    {
      head, nodes := null, [];
    }

    /** set_variable(). */
    method SetVariable(key: string, value: string)
      requires Valid()
      modifies this, nodes
      ensures Valid() && Bindings() == Set(old(Bindings()), key, value)
    {
      hide FirstExtending, Set;
      ghost var bs := Bindings();
      var current := head;
      ghost var i := 0;
      while current != null
        invariant 0 <= i <= |nodes| && current == (if i < |nodes| then nodes[i] else null)
        invariant forall j :: 0 <= j < i ==> !(key <= bs[j].key)
        decreases |nodes| - i
      {
        assert bs[i].key == current.key;
        if key <= current.key {
          SetAt(bs, key, value, i);
          current.value := value;
          assert Bindings() == bs[i := bs[i].(value := value)];
          return;
        }
        current := current.next;
        i := i + 1;
      }
      SetAt(bs, key, value, |nodes|);
      Push(key, value);
    }

    /** A new node in front of the list. */
    method Push(key: string, value: string)
      requires Valid()
      modifies this
      ensures Valid() && Bindings() == [Binding(key, value)] + old(Bindings())
    {
      ghost var bs := Bindings();
      var newNode := new Node(key, value, head);
      head := newNode;
      nodes := [newNode] + nodes;
      assert Bindings() == [Binding(key, value)] + bs;
    }

    /** find_val_with_key(). */
    method FindVal(key: string) returns (value: string)
      requires Valid()
      ensures value == Lookup(Bindings(), key)
    {
      var current := head;
      ghost var i := 0;
      while current != null
        invariant 0 <= i <= |nodes| && current == (if i < |nodes| then nodes[i] else null)
        invariant forall j :: 0 <= j < i ==> key != nodes[j].key
        decreases |nodes| - i
      {
        if |current.key| == |key| && key <= current.key {
          FirstEqualIs(Bindings(), key, i);
          return current.value;
        }
        current := current.next;
        i := i + 1;
      }
      FirstEqualIs(Bindings(), key, |nodes|);
      return "";
    }
  }

  lemma SetAt(bs: seq<Binding>, key: string, value: string, i: nat)
    requires i <= |bs| && (i < |bs| ==> key <= bs[i].key) && forall j :: 0 <= j < i ==> !(key <= bs[j].key)
    ensures Set(bs, key, value) == if i < |bs| then bs[i := bs[i].(value := value)] else [Binding(key, value)] + bs
  {
    FirstExtendingIs(bs, key, i);
  }

  lemma FirstExtendingIs(bs: seq<Binding>, key: string, i: nat)
    requires i <= |bs| && (i < |bs| ==> key <= bs[i].key) && forall j :: 0 <= j < i ==> !(key <= bs[j].key)
    ensures FirstExtending(bs, key) == i
  {
  }

  lemma FirstEqualIs(bs: seq<Binding>, key: string, i: nat)
    requires i <= |bs| && (i < |bs| ==> key == bs[i].key) && forall j :: 0 <= j < i ==> key != bs[j].key
    ensures FirstEqual(bs, key) == i
  {
  }
}
