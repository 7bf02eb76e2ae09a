/**
 * Whole runs of the pbuf operations that move references: the counts stay exact and a pbuf lives exactly as long as
 * it is referenced.
 */
module PbufRuns {
  import opened Common
  import opened PbufModel
  import opened PbufShape

  /** The live pbufs and the references held outside them. */
  datatype State = State(nodes: Store, ext: multiset<nat>)

  /** One call; chains are given by their pbufs in order. */
  datatype Op =
    | Alloc(q: nat, b: Pbuf)
    | Ref(p: nat)
    | Free(p: nat)
    | Cat(hs: seq<nat>, ts: seq<nat>)
    | ChainOnto(hs: seq<nat>, ts: seq<nat>)
    | Dechain(ids: seq<nat>)
    | Split(ids: seq<nat>, k: nat)
    | Realloc(ids: seq<nat>, i: nat, keep: nat, shrink: nat)

  ghost predicate Joinable(s: State, hs: seq<nat>, ts: seq<nat>) {
    Chain(s.nodes, hs) && Chain(s.nodes, ts) && hs != [] && ts != [] && ts[0] in s.ext && forall x | x in hs :: x !in ts
  }

  /** The caller owns what it gives away, works on chains, and keeps counters below their limit. */
  ghost predicate Owned(s: State, op: Op) {
    match op
    case Alloc(q, b) => q !in s.nodes && b.next == None && b.ref == 1
    case Ref(p) => p in s.nodes && s.nodes[p].ref < 0xff
    case Free(p) => p in s.ext
    case Cat(hs, ts) => Joinable(s, hs, ts)
    case ChainOnto(hs, ts) => Joinable(s, hs, ts) && ts[0] in s.nodes && s.nodes[ts[0]].ref < 0xff
    case Dechain(ids) => Chain(s.nodes, ids) && |ids| > 1
    case Split(ids, k) => Chain(s.nodes, ids) && 0 < k < |ids|
    case Realloc(ids, i, keep, _) =>
      Chain(s.nodes, ids) && InStore(s.nodes, ids) && i < |ids| && keep <= |s.nodes[ids[i]].data|
  }

  function Bump(m: Store, p: nat): Store
    requires p in m
  {
    m[p := m[p].(ref := m[p].ref + 1)]
  }

  ghost function FreeAt(s: State, p: Option<nat>): State {
    State(Freed(s.nodes, p), s.ext - Inherited(p))
  }

  lemma OwnedInStore(s: State, op: Op)
    requires Owned(s, op)
    ensures op.Cat? || op.ChainOnto? ==> InStore(s.nodes, op.hs) && InStore(s.nodes, op.ts)
    ensures op.Dechain? || op.Split? || op.Realloc? ==> InStore(s.nodes, op.ids)
  {
    if op.Cat? || op.ChainOnto? {
      ChainInStore(s.nodes, op.hs);
      ChainInStore(s.nodes, op.ts);
    } else if op.Dechain? || op.Split? || op.Realloc? {
      ChainInStore(s.nodes, op.ids);
    }
  }

  ghost function Step(s: State, op: Op): State
    requires Owned(s, op)
  {
    OwnedInStore(s, op);
    match op
    case Alloc(q, b) => State(s.nodes[q := b], s.ext + multiset{q})
    case Ref(p) => State(Bump(s.nodes, p), s.ext + multiset{p})
    case Free(p) => FreeAt(s, Some(p))
    case Cat(hs, ts) => State(CatStore(s.nodes, hs, ts), s.ext - multiset{ts[0]})
    case ChainOnto(hs, ts) => State(Bump(CatStore(s.nodes, hs, ts), ts[0]), s.ext)
    case Dechain(ids) => FreeAt(State(DechainStore(s.nodes, ids[0], ids[1]), s.ext + multiset{ids[1]}), Some(ids[1]))
    case Split(ids, k) => State(SplitStore(s.nodes, ids, k), s.ext + multiset{ids[k]})
    case Realloc(ids, i, keep, shrink) =>
      FreeAt(State(ReallocStore(s.nodes, ids, i, keep, shrink), s.ext + Inherited(NextOf(ids, i))), NextOf(ids, i))
  }

  lemma FreeAtCounted(s: State, p: Option<nat>)
    requires Counted(s.nodes, s.ext) && (p.Some? ==> p.value in s.ext)
    ensures Counted(FreeAt(s, p).nodes, FreeAt(s, p).ext)
  {
    if p.Some? {
      FreedCounted(s.nodes, s.ext, p.value);
    } else {
      assert s.ext - multiset{} == s.ext;
    }
  }

  lemma CatCounted(s: State, hs: seq<nat>, ts: seq<nat>)
    requires Counted(s.nodes, s.ext) && Joinable(s, hs, ts)
    ensures InStore(s.nodes, hs) && InStore(s.nodes, ts)
    ensures Counted(CatStore(s.nodes, hs, ts), s.ext - multiset{ts[0]})
  {
    ChainInStore(s.nodes, hs);
    ChainInStore(s.nodes, ts);
    var b, last := Bumped(s.nodes, hs, s.nodes[ts[0]].tot), hs[|hs| - 1];
    SameLinksCounted(s.nodes, b, s.ext);
    assert LinkAt(s.nodes, hs, |hs| - 1);
    Link(b, s.ext, last, ts[0]);
  }

  lemma ChainOntoCounted(s: State, hs: seq<nat>, ts: seq<nat>)
    requires Counted(s.nodes, s.ext) && Joinable(s, hs, ts) && ts[0] in s.nodes && s.nodes[ts[0]].ref < 0xff
    ensures InStore(s.nodes, hs) && InStore(s.nodes, ts) && Counted(Bump(CatStore(s.nodes, hs, ts), ts[0]), s.ext)
  {
    CatCounted(s, hs, ts);
    assert ts[0] !in hs;
    AddReference(CatStore(s.nodes, hs, ts), s.ext - multiset{ts[0]}, ts[0]);
    assert s.ext - multiset{ts[0]} + multiset{ts[0]} == s.ext;
  }

  lemma SplitCounted(s: State, ids: seq<nat>, k: nat)
    requires Counted(s.nodes, s.ext) && Chain(s.nodes, ids) && InStore(s.nodes, ids) && 0 < k < |ids|
    ensures Counted(SplitStore(s.nodes, ids, k), s.ext + multiset{ids[k]})
  {
    assert LinkAt(s.nodes, ids, k - 1);
    Unlink(s.nodes, s.ext, ids[k - 1]);
    SameLinksCounted(SetNext(s.nodes, ids[k - 1], None), SplitStore(s.nodes, ids, k), s.ext + multiset{ids[k]});
  }

  lemma DechainedCounted(s: State, ids: seq<nat>)
    requires Counted(s.nodes, s.ext) && Chain(s.nodes, ids) && InStore(s.nodes, ids) && |ids| > 1
    ensures Counted(DechainStore(s.nodes, ids[0], ids[1]), s.ext + multiset{ids[1]})
  {
    assert LinkAt(s.nodes, ids, 0);
    DechainCounted(s.nodes, s.ext, ids[0], ids[1]);
  }

  lemma StepCounted(s: State, op: Op)
    requires Counted(s.nodes, s.ext) && Owned(s, op)
    ensures Counted(Step(s, op).nodes, Step(s, op).ext)
  {
    OwnedInStore(s, op);
    match op
    case Alloc(q, b) => Allocate(s.nodes, s.ext, q, b);
    case Ref(p) => AddReference(s.nodes, s.ext, p);
    case Free(p) => FreeAtCounted(s, Some(p));
    case Cat(hs, ts) => CatCounted(s, hs, ts);
    case ChainOnto(hs, ts) => ChainOntoCounted(s, hs, ts);
    case Dechain(ids) =>
      DechainedCounted(s, ids);
      FreeAtCounted(State(DechainStore(s.nodes, ids[0], ids[1]), s.ext + multiset{ids[1]}), Some(ids[1]));
    case Split(ids, k) => SplitCounted(s, ids, k);
    case Realloc(ids, i, keep, shrink) =>
      ReallocCounted(s.nodes, s.ext, ids, i, keep, shrink);
      var t := State(ReallocStore(s.nodes, ids, i, keep, shrink), s.ext + Inherited(NextOf(ids, i)));
      FreeAtCounted(t, NextOf(ids, i));
  }

  /** Every call respects ownership when its turn comes. */
  ghost predicate Legal(s: State, ops: seq<Op>)
    decreases |ops|
  {
    ops == [] || (Owned(s, ops[0]) && Legal(Step(s, ops[0]), ops[1..]))
  }

  ghost function Run(s: State, ops: seq<Op>): State
    requires Legal(s, ops)
    decreases |ops|
  {
    if ops == [] then s else Run(Step(s, ops[0]), ops[1..])
  }

  /**
   * Over every run each count is the external references plus the live predecessors, and no live next pointer
   * dangles.
   */
  lemma {:induction false} RunCounted(s: State, ops: seq<Op>)
    requires Counted(s.nodes, s.ext) && Legal(s, ops)
    ensures Counted(Run(s, ops).nodes, Run(s, ops).ext)
    decreases |ops|
  {
    if ops != [] {
      StepCounted(s, ops[0]);
      RunCounted(Step(s, ops[0]), ops[1..]);
    }
  }

  /** A pbuf of the state before a call is gone after it exactly when nothing refers to it any more. */
  lemma GoneExactlyWhenUnreferenced(s: State, op: Op, q: nat)
    requires Counted(s.nodes, s.ext) && Owned(s, op)
    ensures var t := Step(s, op); q in t.nodes <==> t.ext[q] + |Preds(t.nodes, q)| > 0
  {
    StepCounted(s, op);
    var t := Step(s, op);
    if q in t.nodes {
      assert CountAt(t.nodes, t.ext, q);
    } else {
      forall x | x in t.nodes
        ensures t.nodes[x].next != Some(q)
      {
        assert CountAt(t.nodes, t.ext, x);
      }
      assert Preds(t.nodes, q) == {};
      assert q !in t.ext;
    }
  }

  /** Some order in which every next pointer leads upwards: no chain runs into itself. */
  ghost predicate Acyclic(m: Store, rank: nat -> nat) {
    forall q | q in m && m[q].next.Some? :: rank(q) < rank(m[q].next.value)
  }

  lemma {:induction false} Lowest(keys: set<nat>, rank: nat -> nat) returns (p: nat)
    requires keys != {}
    ensures p in keys && forall q | q in keys :: rank(p) <= rank(q)
  {
    p :| p in keys;
    if keys != {p} {
      var x := Lowest(keys - {p}, rank);
      if rank(x) < rank(p) {
        p := x;
      }
    }
  }

  lemma Predecessor(m: Store, p: nat) returns (x: nat)
    requires Counted(m, multiset{}) && p in m
    ensures x in m && m[x].next == Some(p)
  {
    assert CountAt(m, multiset{}, p);
    x :| x in Preds(m, p);
  }

  /** Every next pointer of n is one of m. */
  ghost predicate FewerLinks(m: Store, n: Store) {
    forall q | q in n && n[q].next.Some? :: q in m && n[q].next == m[q].next
  }

  lemma FewerLinksAcyclic(m: Store, n: Store, rank: nat -> nat)
    requires Acyclic(m, rank) && FewerLinks(m, n)
    ensures Acyclic(n, rank)
  {
  }

  lemma FreedFewerLinks(m: Store, n: Store, p: Option<nat>)
    requires FewerLinks(m, n)
    ensures FewerLinks(m, Freed(n, p))
  {
    FreedKeys(n, p);
  }

  lemma NoNewLinks(s: State, op: Op)
    requires Owned(s, op) && !op.Cat? && !op.ChainOnto?
    ensures FewerLinks(s.nodes, Step(s, op).nodes)
  {
    OwnedInStore(s, op);
    match op
    case Alloc(q, b) =>
    case Ref(p) =>
    case Free(p) => FreedFewerLinks(s.nodes, s.nodes, Some(p));
    case Dechain(ids) =>
      DechainFewerLinks(s.nodes, ids[0], ids[1]);
      FreedFewerLinks(s.nodes, DechainStore(s.nodes, ids[0], ids[1]), Some(ids[1]));
    case Split(ids, k) => SplitFewerLinks(s.nodes, ids, k);
    case Realloc(ids, i, keep, shrink) =>
      ReallocFewerLinks(s.nodes, ids, i, keep, shrink);
      FreedFewerLinks(s.nodes, ReallocStore(s.nodes, ids, i, keep, shrink), NextOf(ids, i));
  }

  lemma DechainFewerLinks(m: Store, p: nat, q: nat)
    requires p in m && q in m
    ensures FewerLinks(m, DechainStore(m, p, q))
  {
  }

  lemma SplitFewerLinks(m: Store, ids: seq<nat>, k: nat)
    requires InStore(m, ids) && 0 < k < |ids|
    ensures FewerLinks(m, SplitStore(m, ids, k))
  {
  }

  lemma ReallocFewerLinks(m: Store, ids: seq<nat>, i: nat, keep: nat, shrink: nat)
    requires InStore(m, ids) && i < |ids| && keep <= |m[ids[i]].data|
    ensures FewerLinks(m, ReallocStore(m, ids, i, keep, shrink))
  {
  }

  /** Ranks above the last pbuf of hs for the pbufs of ts. */
  function Raised(rank: nat -> nat, ts: seq<nat>, d: nat): nat -> nat { q => if q in ts then rank(q) + d else rank(q) }

  lemma CatAcyclic(m: Store, hs: seq<nat>, ts: seq<nat>, rank: nat -> nat) returns (above: nat -> nat)
    requires Acyclic(m, rank) && InStore(m, hs) && InStore(m, ts) && hs != [] && ts != []
    requires Chain(m, ts) && forall x | x in hs :: x !in ts
    ensures Acyclic(CatStore(m, hs, ts), above)
  {
    var n, last := CatStore(m, hs, ts), hs[|hs| - 1];
    above := Raised(rank, ts, rank(last) + 1);
    forall q | q in n && n[q].next.Some?
      ensures above(q) < above(n[q].next.value)
    {
      if q == last {
        assert ts[0] in ts && last in hs;
      } else if q in ts {
        var i :| 0 <= i < |ts| && ts[i] == q;
        assert LinkAt(m, ts, i);
      }
    }
  }

  /** No call closes a circle. */
  lemma StepAcyclic(s: State, op: Op, rank: nat -> nat) returns (above: nat -> nat)
    requires Owned(s, op) && Acyclic(s.nodes, rank)
    ensures Acyclic(Step(s, op).nodes, above)
  {
    if op.Cat? || op.ChainOnto? {
      OwnedInStore(s, op);
      above := CatAcyclic(s.nodes, op.hs, op.ts, rank);
      FewerLinksAcyclic(CatStore(s.nodes, op.hs, op.ts), Step(s, op).nodes, above);
    } else {
      above := rank;
      NoNewLinks(s, op);
      FewerLinksAcyclic(s.nodes, Step(s, op).nodes, rank);
    }
  }

  lemma {:induction false} RunAcyclic(s: State, ops: seq<Op>, rank: nat -> nat) returns (above: nat -> nat)
    requires Legal(s, ops) && Acyclic(s.nodes, rank)
    ensures Acyclic(Run(s, ops).nodes, above)
    decreases |ops|
  {
    above := rank;
    if ops != [] {
      above := StepAcyclic(s, ops[0], rank);
      above := RunAcyclic(Step(s, ops[0]), ops[1..], above);
    }
  }

  /** When every run from an empty store has given up its last outside reference, every pbuf has been released. */
  lemma RunLeaksNothing(ops: seq<Op>)
    requires Legal(State(map[], multiset{}), ops)
    ensures var s := Run(State(map[], multiset{}), ops); s.ext == multiset{} ==> s.nodes == map[]
  {
    var rank := RunAcyclic(State(map[], multiset{}), ops, q => q);
    RunCounted(State(map[], multiset{}), ops);
    if Run(State(map[], multiset{}), ops).ext == multiset{} {
      NothingLeaked(Run(State(map[], multiset{}), ops).nodes, rank);
    }
  }

  /** Once the last outside reference has been given up, every pbuf of an acyclic store has been released. */
  lemma NothingLeaked(m: Store, rank: nat -> nat)
    requires Counted(m, multiset{}) && Acyclic(m, rank)
    ensures m == map[]
  {
    if m != map[] {
      var p := Lowest(m.Keys, rank);
      var x := Predecessor(m, p);
      assert false;
    }
  }
}
