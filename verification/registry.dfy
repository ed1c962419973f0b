/** The connection registry: the list of active connections kept by the
    connection manager. A connection is identified by its transport handle, and
    handles are compared by identity, so a connection is modelled by a natural
    number. The registry is an ordered list (join order) and the code never
    checks it for duplicates. */
module Registry {

  type ConnId = nat

  /** No connection occurs twice. */
  predicate NoDup(s: seq<ConnId>) {
    forall i, j :: 0 <= i < j < |s| ==> s[i] != s[j]
  }

  /** Registering a connection appends it to the end of the list, without
      looking for an earlier occurrence. */
  function Connect(reg: seq<ConnId>, c: ConnId): (r: seq<ConnId>)
    ensures |r| == |reg| + 1
    ensures r[..|reg|] == reg
    ensures r[|reg|] == c
    ensures c in reg ==> !NoDup(r)
  {
    var r := reg + [c];
    if c in reg then
      var i :| 0 <= i < |reg| && reg[i] == c;
      assert r[i] == r[|reg|];
      r
    else
      r
  }

  /** Position of the first occurrence of `c` in `s`. */
  function IndexOf(s: seq<ConnId>, c: ConnId): (i: nat)
    requires c in s
    ensures i < |s| && s[i] == c
    ensures c !in s[..i]
  {
    if s[0] == c then 0
    else
      var j := IndexOf(s[1..], c);
      assert s[..j + 1] == [s[0]] + s[1..][..j];
      1 + j
  }

  /** The list primitive used by the registry: delete the first element equal
      to `c`. It is only defined when `c` is present; the list type raises an
      error otherwise, which the registry guards against. */
  function RemoveFirst(s: seq<ConnId>, c: ConnId): (r: seq<ConnId>)
    requires c in s
    ensures r == s[..IndexOf(s, c)] + s[IndexOf(s, c) + 1..]
  {
    if s[0] == c then s[1..]
    else
      var rest := RemoveFirst(s[1..], c);
      assert [s[0]] + s[1..][..IndexOf(s[1..], c)] == s[..IndexOf(s, c)];
      [s[0]] + rest
  }

  /** Deregistering a connection removes its first occurrence when it is
      present and is a silent no-op when it is not. */
  function Disconnect(reg: seq<ConnId>, c: ConnId): (r: seq<ConnId>)
    ensures c !in reg ==> r == reg
    ensures c in reg ==>
      |r| == |reg| - 1 &&
      r == reg[..IndexOf(reg, c)] + reg[IndexOf(reg, c) + 1..]
  {
    if c in reg then RemoveFirst(reg, c) else reg
  }

  /** The members of `s` that are not in `drop`, in their original order. */
  function Without(s: seq<ConnId>, drop: set<ConnId>): (r: seq<ConnId>)
    ensures |r| <= |s|
    ensures forall x :: x in r <==> x in s && x !in drop
  {
    if s == [] then []
    else
      var rest := Without(s[1..], drop);
      assert forall x :: x in s <==> x == s[0] || x in s[1..];
      if s[0] in drop then rest else [s[0]] + rest
  }

  // ---------------------------------------------------------------------
  // Lemmas about Without
  // ---------------------------------------------------------------------

  lemma {:induction false} WithoutNothing(s: seq<ConnId>)
    ensures Without(s, {}) == s
  {
    if s != [] {
      WithoutNothing(s[1..]);
      assert s == [s[0]] + s[1..];
    }
  }

  lemma {:induction false} WithoutAppend(a: seq<ConnId>, b: seq<ConnId>, drop: set<ConnId>)
    ensures Without(a + b, drop) == Without(a, drop) + Without(b, drop)
  {
    if a == [] {
      assert a + b == b;
    } else {
      assert (a + b)[1..] == a[1..] + b;
      WithoutAppend(a[1..], b, drop);
    }
  }

  /** Filtering twice is filtering once by the union. */
  lemma {:induction false} WithoutWithout(s: seq<ConnId>, d1: set<ConnId>, d2: set<ConnId>)
    ensures Without(Without(s, d1), d2) == Without(s, d1 + d2)
  {
    if s != [] {
      WithoutWithout(s[1..], d1, d2);
      if s[0] !in d1 {
        var rest := Without(s[1..], d1);
        assert Without(s, d1) == [s[0]] + rest;
        assert ([s[0]] + rest)[1..] == rest;
      }
    }
  }

  /** Only the members of `s` matter for the drop set. */
  lemma {:induction false} WithoutAgree(s: seq<ConnId>, d1: set<ConnId>, d2: set<ConnId>)
    requires forall x :: x in s ==> (x in d1 <==> x in d2)
    ensures Without(s, d1) == Without(s, d2)
  {
    if s != [] {
      assert forall x :: x in s[1..] ==> x in s;
      WithoutAgree(s[1..], d1, d2);
    }
  }

  lemma {:induction false} WithoutNoDup(s: seq<ConnId>, drop: set<ConnId>)
    requires NoDup(s)
    ensures NoDup(Without(s, drop))
  {
    if s != [] {
      NoDupTail(s);
      WithoutNoDup(s[1..], drop);
      var rest := Without(s[1..], drop);
      if s[0] !in drop {
        NoDupSplit(s, 0);
        assert s[1..] == s[0 + 1..];
        assert s[0] !in rest;
        var r := [s[0]] + rest;
        forall i, j | 0 <= i < j < |r| ensures r[i] != r[j] {
          if i == 0 {
            assert r[j] == rest[j - 1];
          } else {
            assert r[i] == rest[i - 1] && r[j] == rest[j - 1];
          }
        }
      }
    }
  }

  /** In a duplicate-free list an element occurs neither before nor after
      its own position. */
  lemma NoDupSplit(s: seq<ConnId>, i: nat)
    requires NoDup(s) && i < |s|
    ensures s[i] !in s[..i] && s[i] !in s[i + 1..]
  {
    var tail := s[i + 1..];
    forall k | 0 <= k < |tail| ensures tail[k] != s[i] {
      assert tail[k] == s[i + 1 + k];
    }
  }

  lemma NoDupTail(s: seq<ConnId>)
    requires NoDup(s) && s != []
    ensures NoDup(s[1..])
  {
    forall i, j | 0 <= i < j < |s[1..]| ensures s[1..][i] != s[1..][j] {
      assert s[1..][i] == s[i + 1] && s[1..][j] == s[j + 1];
    }
  }

  /** In a duplicate-free list a connection occurs at most once. */
  lemma {:induction false} NoDupCount(s: seq<ConnId>, x: ConnId)
    requires NoDup(s)
    ensures multiset(s)[x] == if x in s then 1 else 0
  {
    if s != [] {
      assert s == [s[0]] + s[1..];
      NoDupTail(s);
      NoDupCount(s[1..], x);
      if s[0] == x {
        NoDupSplit(s, 0);
        assert s[1..] == s[0 + 1..];
      }
    }
  }

  // ---------------------------------------------------------------------
  // Lemmas about Connect and Disconnect
  // ---------------------------------------------------------------------

  /** Registering keeps the registry duplicate-free exactly when the
      connection was not registered before. */
  lemma ConnectNoDup(reg: seq<ConnId>, c: ConnId)
    ensures NoDup(Connect(reg, c)) <==> NoDup(reg) && c !in reg
  {
    var r := Connect(reg, c);
    if NoDup(r) {
      forall i, j | 0 <= i < j < |reg| ensures reg[i] != reg[j] {
        assert r[i] == reg[i] && r[j] == reg[j];
      }
    }
  }

  /** Deregistering removes exactly one occurrence of a present connection
      and leaves the count of every other connection alone. */
  lemma DisconnectMultiset(reg: seq<ConnId>, c: ConnId)
    ensures multiset(Disconnect(reg, c)) == multiset(reg) - multiset{c}
  {
    if c in reg {
      var i := IndexOf(reg, c);
      assert reg == reg[..i] + [c] + reg[i + 1..];
    } else {
      assert multiset(reg)[c] == 0;
    }
  }

  lemma {:induction false} RemoveFirstIsWithout(s: seq<ConnId>, c: ConnId)
    requires NoDup(s) && c in s
    ensures RemoveFirst(s, c) == Without(s, {c})
  {
    NoDupSplit(s, 0);
    assert s[1..] == s[0 + 1..];
    if s[0] == c {
      WithoutAgree(s[1..], {c}, {});
      WithoutNothing(s[1..]);
    } else {
      NoDupTail(s);
      assert c in s[1..];
      RemoveFirstIsWithout(s[1..], c);
    }
  }

  /** On a duplicate-free registry, deregistering is filtering the
      connection out, so afterwards it is absent. */
  lemma DisconnectIsWithout(reg: seq<ConnId>, c: ConnId)
    requires NoDup(reg)
    ensures Disconnect(reg, c) == Without(reg, {c})
    ensures NoDup(Disconnect(reg, c))
    ensures c !in Disconnect(reg, c)
  {
    if c in reg {
      RemoveFirstIsWithout(reg, c);
    } else {
      WithoutAgree(reg, {c}, {});
      WithoutNothing(reg);
    }
    WithoutNoDup(reg, {c});
  }

  /** Registering a new connection and then deregistering it restores the
      registry. */
  lemma ConnectDisconnect(reg: seq<ConnId>, c: ConnId)
    requires c !in reg
    ensures Disconnect(Connect(reg, c), c) == reg
  {
    var r := Connect(reg, c);
    assert r == reg + [c];
    assert IndexOf(r, c) == |reg|;
  }

  /** On a duplicate-free registry, deregistering twice is deregistering
      once: the second call hits the absent case. */
  lemma DisconnectIdempotent(reg: seq<ConnId>, c: ConnId)
    requires NoDup(reg)
    ensures Disconnect(Disconnect(reg, c), c) == Disconnect(reg, c)
  {
    DisconnectIsWithout(reg, c);
  }

}
