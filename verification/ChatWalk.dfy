/** Walking the client list by its `next` pointers visits the same clients as the snapshot of the list taken
    when the walk began: clients that are gone by their turn make no difference. */
module ChatWalk {
  import opened Chat
  import opened ChatInvariant
  import opened ChatSteps
  import opened ChatRounds

  predicate Present(ps: seq<Peer>, s: nat) { IndexOf(ps, s) < |ps| }

  function Remaining(todo: seq<nat>, ps: seq<Peer>): seq<nat> {
    if todo == [] then []
    else (if Present(ps, todo[0]) then [todo[0]] else []) + Remaining(todo[1..], ps)
  }

  /** The serials from position `j` on. */
  function Onward(ps: seq<Peer>, j: nat): seq<nat>
    requires j <= |ps|
  {
    Serials(ps)[j..]
  }

  /** From position `j` on, exactly the clients that were accepted after client `s`. */
  predicate Beyond(ps: seq<Peer>, s: nat, j: nat) {
    j <= |ps| && forall i :: 0 <= i < |ps| ==> (ps[i].serial > s <==> i >= j)
  }

  lemma {:induction false} RemainingIs(todo: seq<nat>, ps: seq<Peer>)
    requires Increasing(todo)
    ensures Increasing(Remaining(todo, ps)) && |Remaining(todo, ps)| <= |todo|
    ensures forall s :: s in Remaining(todo, ps) <==> s in todo && Present(ps, s)
  {
    if todo != [] {
      RemainingIs(todo[1..], ps);
      var rest := Remaining(todo[1..], ps);
      forall k | 0 <= k < |rest|
        ensures rest[k] > todo[0]
      {
        assert rest[k] in todo[1..];
      }
    }
  }

  lemma {:induction false} RemainingTwice(todo: seq<nat>, ps: seq<Peer>, qs: seq<Peer>)
    requires forall s :: Present(qs, s) ==> Present(ps, s)
    ensures Remaining(Remaining(todo, ps), qs) == Remaining(todo, qs)
  {
    if todo != [] {
      RemainingTwice(todo[1..], ps, qs);
      var rest := Remaining(todo[1..], ps);
      assert ([todo[0]] + rest)[1..] == rest && [] + rest == rest;
    }
  }

  lemma {:induction false} IncreasingUnique(a: seq<nat>, b: seq<nat>)
    requires Increasing(a) && Increasing(b) && forall x :: x in a <==> x in b
    ensures a == b
  {
    assert b == [] || (b[0] in b && b[0] in a);
    assert a == [] || (a[0] in a && a[0] in b);
    if a != [] {
      assert a[0] == b[0];
      forall x
        ensures x in a[1..] <==> x in b[1..]
      {
        assert x in a[1..] <==> x in a && x > a[0];
        assert x in b[1..] <==> x in b && x > b[0];
      }
      IncreasingUnique(a[1..], b[1..]);
    }
  }

  lemma NobodyReturns(st: State, s: nat, r: Round, env: Env)
    requires Ascending(st.peers, st.accepted) && !st.freed
    ensures forall t :: Present(Serve(st, s, r, env).peers, t) ==> Present(st.peers, t)
  {
    var st1 := Serve(st, s, r, env);
    ServeTurns(st, s, r, env);
    forall t | Present(st1.peers, t)
      ensures Present(st.peers, t)
    {
      IndexMissing(st1.peers, t);
      var q :| q in st1.peers && q.serial == t;
      assert HasReadOnce(q, st.peers, [s], r);
      IndexMissing(st.peers, t);
    }
  }

  lemma {:induction false} SkipAbsent(st: State, todo: seq<nat>, r: Round, env: Env)
    requires Inv(st)
    ensures ServeAll(st, todo, r, env) == ServeAll(st, Remaining(todo, st.peers), r, env)
    decreases |todo|
  {
    hide Inv;
    if todo != [] {
      var s, rest := todo[0], todo[1..];
      var left := Remaining(rest, st.peers);
      RemainingShorter(rest, st.peers);
      var st1 := Serve(st, s, r, env);
      ServeAbsent(st, s, r, env);
      if Present(st.peers, s) {
        assert Remaining(todo, st.peers)[0] == s && Remaining(todo, st.peers)[1..] == left;
        if st1.freed {
          FreedForever(st1, rest, r, env);
          FreedForever(st1, left, r, env);
        } else {
          RegisteredInOrder(st);
          NobodyReturns(st, s, r, env);
          ServeKeeps(st, s, r, env);
          RemainingTwice(rest, st.peers, st1.peers);
          SkipAbsent(st1, rest, r, env);
          SkipAbsent(st1, left, r, env);
        }
      } else {
        SkipAbsent(st, rest, r, env);
        assert [] + left == left;
      }
    }
  }

  lemma ServeAbsent(st: State, s: nat, r: Round, env: Env)
    ensures !Present(st.peers, s) ==> Serve(st, s, r, env) == st
  {
  }

  lemma {:induction false} RemainingShorter(todo: seq<nat>, ps: seq<Peer>)
    ensures |Remaining(todo, ps)| <= |todo|
  {
    if todo != [] {
      RemainingShorter(todo[1..], ps);
    }
  }

  lemma PresentIs(ps: seq<Peer>, s: nat)
    ensures Present(ps, s) <==> exists i :: 0 <= i < |ps| && ps[i].serial == s
  {
    IndexMissing(ps, s);
    if i :| 0 <= i < |ps| && ps[i].serial == s {
      assert ps[i] in ps;
    }
  }

  lemma OnwardIs(ps: seq<Peer>, s: nat, j: nat, bound: nat)
    requires Ascending(ps, bound) && Beyond(ps, s, j)
    ensures Increasing(Onward(ps, j))
    ensures forall t :: t in Onward(ps, j) <==> t > s && Present(ps, t)
  {
    hide IndexOf, Present;
    SerialsIncrease(ps, bound);
    forall t: nat | t in Onward(ps, j)
      ensures t > s && Present(ps, t)
    {
      var i :| 0 <= i < |ps| - j && Onward(ps, j)[i] == t;
      assert ps[i + j] in ps && ps[i + j].serial == t;
      PresentIs(ps, t);
    }
    forall t: nat | t > s && Present(ps, t)
      ensures t in Onward(ps, j)
    {
      PresentIs(ps, t);
      var i :| 0 <= i < |ps| && ps[i].serial == t;
      assert Onward(ps, j)[i - j] == t;
    }
  }

  /** The step of the walk: after the turn of the client at `k`, going on behind it in the list as it is then
      comes to the same as going through the rest of the snapshot. */
  lemma Resume(st: State, k: nat, j: nat, r: Round, env: Env)
    requires Inv(st) && k < |st.peers|
    requires var st1 := Serve(st, st.peers[k].serial, r, env); Inv(st1) && Beyond(st1.peers, st.peers[k].serial, j)
    ensures var st1 := Serve(st, st.peers[k].serial, r, env);
      ServeAll(st, Onward(st.peers, k), r, env) == ServeAll(st1, Onward(st1.peers, j), r, env) &&
      |st1.peers| - j < |st.peers| - k
  {
    hide Inv, Serve;
    var s := st.peers[k].serial;
    var st1 := Serve(st, s, r, env);
    var rest := Onward(st.peers, k + 1);
    RegisteredInOrder(st);
    RegisteredInOrder(st1);
    assert Beyond(st.peers, s, k + 1);
    OnwardIs(st.peers, s, k + 1, st.accepted);
    OnwardIs(st1.peers, s, j, st1.accepted);
    NobodyReturns(st, s, r, env);
    RemainingIs(rest, st1.peers);
    IncreasingUnique(Remaining(rest, st1.peers), Onward(st1.peers, j));
    SkipAbsent(st1, rest, r, env);
    assert Onward(st.peers, k)[0] == s && Onward(st.peers, k)[1..] == rest;
  }
}
