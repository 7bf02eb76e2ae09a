/**
 * The slot protocol of api/sockets.c over all interleavings of its protected sections: who holds a slot, which
 * netconn it has.
 */
module SocketSlots {
  import opened Common

  /** A slot: its netconn, its current holders with the netconn each saw when it came, and whether a free is pending. */
  datatype Slot = Slot(conn: Option<nat>, holders: map<nat, Option<nat>>, closing: bool)

  /** `created`: netconns that ever got a slot; `deleted`: netconns handed out for netconn_delete, in order. */
  datatype World = World(slots: seq<Slot>, created: set<nat>, deleted: seq<nat>)

  /** One protected section, run on behalf of holder `tok`. */
  datatype Event =
    | Inc(i: nat, tok: nat)
    | Done(i: nat, tok: nat)
    | Free(i: nat, tok: nat)
    | AllocAt(i: nat, tok: nat, conn: nat)

  const MAX_USED: nat := 255

  /** Callers release only what they hold, close only a slot with a netconn, and keep the count below its limit. */
  ghost predicate Enabled(w: World, e: Event) {
    e.i < |w.slots| && var s := w.slots[e.i];
    match e
    case Inc(_, tok) => tok !in s.holders && |s.holders| < MAX_USED
    case Done(_, tok) => tok in s.holders
    case Free(_, tok) => tok in s.holders && s.holders[tok].Some?
    case AllocAt(_, _, conn) => conn !in w.created
  }

  ghost function Release(w: World, i: nat, tok: nat, close: bool): World
    requires i < |w.slots|
  {
    var s := w.slots[i];
    var rest := s.holders - {tok};
    if rest != map[] then w.(slots := w.slots[i := Slot(s.conn, rest, s.closing || close)])
    else if s.closing || close then
      w.(slots := w.slots[i := Slot(None, rest, s.closing)],
         deleted := w.deleted + match s.conn case Some(c) => [c] case None => [])
    else w.(slots := w.slots[i := Slot(s.conn, rest, false)])
  }

  ghost predicate CanAlloc(s: Slot) { s.conn.None? && s.holders == map[] }

  ghost function Step(w: World, e: Event): World {
    if !Enabled(w, e) then w
    else var s := w.slots[e.i];
    match e
    case Inc(i, tok) => if s.closing then w else w.(slots := w.slots[i := s.(holders := s.holders[tok := s.conn])])
    case Done(i, tok) => Release(w, i, tok, false)
    case Free(i, tok) => Release(w, i, tok, true)
    case AllocAt(i, tok, conn) =>
      if !CanAlloc(s) then w
      else w.(slots := w.slots[i := Slot(Some(conn), map[tok := Some(conn)], false)], created := w.created + {conn})
  }

  ghost function Run(w: World, es: seq<Event>): World
    decreases |es|
  {
    if es == [] then w else Run(Step(w, es[0]), es[1..])
  }

  ghost function Init(n: nat): World {
    World(seq(n, _ => Slot(None, map[], false)), {}, [])
  }

  // ---- what every protected section keeps ----

  ghost predicate SlotInv(s: Slot) {
    (forall t | t in s.holders :: s.holders[t] == s.conn)
    && |s.holders| <= MAX_USED
    && (s.closing ==> (s.conn.Some? <==> s.holders != map[]))
  }

  function Here(s: Slot, c: nat): nat { if s.conn == Some(c) then 1 else 0 }

  /** Slots that hold netconn c. */
  function InSlots(ss: seq<Slot>, c: nat): nat {
    if ss == [] then 0 else Here(ss[0], c) + InSlots(ss[1..], c)
  }

  /** Every netconn that got a slot is in exactly one slot or was handed out exactly once, and not both. */
  ghost predicate Conserved(w: World) {
    forall c: nat {:trigger InSlots(w.slots, c)} {:trigger c in w.created} ::
      InSlots(w.slots, c) + multiset(w.deleted)[c] == if c in w.created then 1 else 0
  }

  ghost predicate Inv(w: World) {
    (forall i | 0 <= i < |w.slots| :: SlotInv(w.slots[i])) && Conserved(w)
  }

  lemma {:induction false} InSlotsUpdate(ss: seq<Slot>, i: nat, s: Slot, c: nat)
    requires i < |ss|
    ensures InSlots(ss[i := s], c) + Here(ss[i], c) == InSlots(ss, c) + Here(s, c)
  {
    if i == 0 {
      assert ss[0 := s][1..] == ss[1..];
    } else {
      InSlotsUpdate(ss[1..], i - 1, s, c);
      assert ss[i := s][1..] == ss[1..][i - 1 := s];
    }
  }

  lemma {:induction false} InitInSlots(n: nat, c: nat)
    ensures InSlots(Init(n).slots, c) == 0
  {
    if n > 0 {
      InitInSlots(n - 1, c);
      assert Init(n).slots[1..] == Init(n - 1).slots;
    }
  }

  /** Replacing one slot by one with the same netconn. */
  lemma SameConn(w: World, i: nat, s: Slot)
    requires Inv(w) && i < |w.slots| && s.conn == w.slots[i].conn && SlotInv(s)
    ensures Inv(w.(slots := w.slots[i := s]))
  {
    forall c: nat
      ensures InSlots(w.slots[i := s], c) == InSlots(w.slots, c)
    {
      InSlotsUpdate(w.slots, i, s, c);
    }
  }

  /** Handing out the netconn of a slot. */
  lemma HandOut(w: World, i: nat, s: Slot, c: nat)
    requires Inv(w) && i < |w.slots| && w.slots[i].conn == Some(c) && s.conn.None? && SlotInv(s)
    ensures Inv(w.(slots := w.slots[i := s], deleted := w.deleted + [c]))
  {
    forall d: nat
      ensures InSlots(w.slots[i := s], d) == InSlots(w.slots, d) - if d == c then 1 else 0
    {
      InSlotsUpdate(w.slots, i, s, d);
    }
  }

  lemma ReleaseKeeps(w: World, i: nat, tok: nat, close: bool)
    requires Inv(w) && i < |w.slots| && tok in w.slots[i].holders && (close ==> w.slots[i].holders[tok].Some?)
    ensures Inv(Release(w, i, tok, close))
  {
    var s := w.slots[i];
    var rest := s.holders - {tok};
    assert |rest| <= |s.holders| by { SmallerMap(s.holders, tok); }
    assert s.conn == s.holders[tok];
    if rest != map[] {
      SameConn(w, i, Slot(s.conn, rest, s.closing || close));
    } else if s.closing || close {
      assert s.conn.Some?;
      HandOut(w, i, Slot(None, rest, s.closing), s.conn.value);
    } else {
      SameConn(w, i, Slot(s.conn, rest, false));
    }
  }

  lemma SmallerMap<T>(m: map<nat, T>, k: nat)
    requires k in m
    ensures |m - {k}| == |m| - 1
  {
    assert m.Keys == (m - {k}).Keys + {k};
  }

  lemma AllocKeeps(w: World, e: Event)
    requires Inv(w) && Enabled(w, e) && e.AllocAt? && CanAlloc(w.slots[e.i])
    ensures Inv(Step(w, e))
  {
    var s := Slot(Some(e.conn), map[e.tok := Some(e.conn)], false);
    forall c: nat
      ensures InSlots(w.slots[e.i := s], c) == InSlots(w.slots, c) + if c == e.conn then 1 else 0
    {
      InSlotsUpdate(w.slots, e.i, s, c);
    }
    assert InSlots(w.slots, e.conn) + multiset(w.deleted)[e.conn] == 0;
  }

  lemma StepKeeps(w: World, e: Event)
    requires Inv(w)
    ensures Inv(Step(w, e)) && |Step(w, e).slots| == |w.slots|
  {
    if Enabled(w, e) {
      var s := w.slots[e.i];
      match e
      case Inc(i, tok) =>
        if !s.closing {
          SameConn(w, i, s.(holders := s.holders[tok := s.conn]));
        }
      case Done(i, tok) => ReleaseKeeps(w, i, tok, false);
      case Free(i, tok) => ReleaseKeeps(w, i, tok, true);
      case AllocAt(i, tok, conn) =>
        if CanAlloc(s) {
          AllocKeeps(w, e);
        }
    }
  }

  /** Safety over every interleaving, from the empty table. */
  lemma {:induction false} RunKeeps(w: World, es: seq<Event>)
    requires Inv(w)
    ensures Inv(Run(w, es)) && |Run(w, es).slots| == |w.slots|
    decreases |es|
  {
    if es != [] {
      StepKeeps(w, es[0]);
      RunKeeps(Step(w, es[0]), es[1..]);
    }
  }

  lemma InitInv(n: nat)
    ensures Inv(Init(n))
  {
    forall c: nat
      ensures InSlots(Init(n).slots, c) == 0
    {
      InitInSlots(n, c);
    }
  }

  // ---- what holders may rely on ----

  ghost predicate Releases(e: Event, i: nat, tok: nat) { (e.Done? || e.Free?) && e.i == i && e.tok == tok }

  ghost predicate Holds(w: World, i: nat, tok: nat) { i < |w.slots| && tok in w.slots[i].holders }

  lemma StepHeld(w: World, e: Event, i: nat, tok: nat)
    requires Inv(w) && Holds(w, i, tok) && !Releases(e, i, tok)
    ensures Holds(Step(w, e), i, tok) && Step(w, e).slots[i].conn == w.slots[i].conn
  {
  }

  /** While someone holds a slot, whatever the others do, the slot keeps its netconn. */
  lemma {:induction false} HeldConnStays(w: World, es: seq<Event>, i: nat, tok: nat)
    requires Inv(w) && Holds(w, i, tok) && forall k | 0 <= k < |es| :: !Releases(es[k], i, tok)
    ensures Holds(Run(w, es), i, tok) && Run(w, es).slots[i].conn == w.slots[i].conn
    decreases |es|
  {
    if es != [] {
      StepHeld(w, es[0], i, tok);
      StepKeeps(w, es[0]);
      HeldConnStays(Step(w, es[0]), es[1..], i, tok);
    }
  }

  /** Once a free of netconn c is pending: until c is handed out, nobody new gets in. */
  ghost predicate Closing(w: World, i: nat, c: nat) {
    i < |w.slots| && w.slots[i].closing && w.slots[i].conn == Some(c)
  }

  lemma StepClosing(w: World, e: Event, i: nat, c: nat)
    requires Inv(w) && Closing(w, i, c)
    ensures var v := Step(w, e);
      (Closing(v, i, c) && v.slots[i].holders.Keys <= w.slots[i].holders.Keys) || c in v.deleted
  {
  }

  lemma {:induction false} DeletedStays(w: World, es: seq<Event>, c: nat)
    requires c in w.deleted
    ensures c in Run(w, es).deleted
    decreases |es|
  {
    if es != [] {
      assert c in Step(w, es[0]).deleted;
      DeletedStays(Step(w, es[0]), es[1..], c);
    }
  }

  lemma {:induction false} NoNewHolders(w: World, es: seq<Event>, i: nat, c: nat)
    requires Inv(w) && Closing(w, i, c)
    ensures var v := Run(w, es);
      (Closing(v, i, c) && v.slots[i].holders.Keys <= w.slots[i].holders.Keys) || c in v.deleted
    decreases |es|
  {
    if es != [] {
      StepClosing(w, es[0], i, c);
      StepKeeps(w, es[0]);
      if c in Step(w, es[0]).deleted {
        DeletedStays(Step(w, es[0]), es[1..], c);
      } else {
        NoNewHolders(Step(w, es[0]), es[1..], i, c);
      }
    }
  }

  /**
   * A closed netconn is handed out exactly once, as soon as the holders of its slot are gone; until then not at all.
   */
  lemma ClosedIsDeletedOnce(w: World, es: seq<Event>, i: nat, c: nat)
    requires Inv(w) && Closing(w, i, c)
    ensures var v := Run(w, es);
      multiset(v.deleted)[c] == if i < |v.slots| && v.slots[i].conn == Some(c) then 0 else 1
    ensures (forall t | t in w.slots[i].holders :: !Holds(Run(w, es), i, t)) ==> multiset(Run(w, es).deleted)[c] == 1
  {
    NoNewHolders(w, es, i, c);
    RunKeeps(w, es);
    var v := Run(w, es);
    if v.slots[i].conn == Some(c) {
      InSlotsUpdate(v.slots, i, Slot(None, map[], false), c);
    }
    assert InSlots(v.slots, c) + multiset(v.deleted)[c] <= 1;
    if !(c in v.deleted) {
      assert v.slots[i].holders != map[];
      var t :| t in v.slots[i].holders;
      assert Holds(v, i, t);
    }
  }

  /** Only the last holder of a slot is ever handed a netconn, and only after a close. */
  lemma HandedOutByLast(w: World, e: Event)
    requires Inv(w) && Step(w, e).deleted != w.deleted
    ensures Enabled(w, e) && (e.Free? || (e.Done? && w.slots[e.i].closing))
    ensures w.slots[e.i].holders.Keys == {e.tok} && w.slots[e.i].conn.Some?
    ensures Step(w, e).deleted == w.deleted + [w.slots[e.i].conn.value]
    ensures CanAlloc(Step(w, e).slots[e.i])
  {
    var s := w.slots[e.i];
    assert s.holders - {e.tok} == map[];
    assert s.holders.Keys == (s.holders - {e.tok}).Keys + {e.tok};
  }
}
