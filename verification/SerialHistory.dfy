/** What serializability promises, said of positions in a history: the serial history runs one transaction after
    another,
    and a read returns what was last written. */
module SerialHistory {
  import opened Common
  import opened LockSpec
  import opened LockOrder
  import opened Serializability

  // --- Serial ---

  /** `s` is `h` rearranged: `at[k]` is where event `k` stood. */
  ghost predicate Rearranged(h: seq<Event>, s: seq<Event>, at: seq<nat>) {
    && |at| == |s| == |h| && Distinct(at)
    && forall k :: 0 <= k < |s| ==> at[k] < |h| && s[k] == h[at[k]]
  }

  /** Of two events the earlier belongs to an earlier transaction of `order`, or both are of the same transaction and
      stood in this order before. */
  ghost predicate OneByOne(s: seq<Event>, order: seq<Txn>, at: seq<nat>)
    requires |at| == |s|
  {
    forall k, l :: 0 <= k < l < |s| ==>
      Before(order, s[k].txn, s[l].txn) || (s[k].txn == s[l].txn && at[k] < at[l])
  }

  ghost predicate PickedAt(h: seq<Event>, s: seq<Event>, at: seq<nat>) {
    Increasing(at) && |at| == |s| && forall k :: 0 <= k < |s| ==> at[k] < |h| && s[k] == h[at[k]]
  }

  lemma {:induction false} OnlyAt(h: seq<Event>, t: Txn) returns (at: seq<nat>)
    ensures PickedAt(h, Only(h, t), at) && forall k :: 0 <= k < |at| ==> h[at[k]].txn == t
  {
    at := [];
    if h != [] {
      var n := |h| - 1;
      at := OnlyAt(h[..n], t);
      if h[n].txn == t { at := at + [n]; }
    }
  }

  lemma {:induction false} OthersAt(h: seq<Event>, t: Txn) returns (at: seq<nat>)
    ensures PickedAt(h, Others(h, t), at) && forall k :: 0 <= k < |at| ==> h[at[k]].txn != t
    ensures |Only(h, t)| + |Others(h, t)| == |h|
  {
    at := [];
    if h != [] {
      var n := |h| - 1;
      at := OthersAt(h[..n], t);
      if h[n].txn != t { at := at + [n]; }
    }
  }

  /** The serial history holds the events of the history, each once, one transaction after another in the given order,
      and each transaction's in the order in which it made them. */
  lemma {:induction false} SerialIsSerial(h: seq<Event>, order: seq<Txn>) returns (at: seq<nat>)
    requires Distinct(order) && Covers(h, order)
    ensures Rearranged(h, Serial(h, order), at) && OneByOne(Serial(h, order), order, at)
    decreases |order|
  {
    hide Only, Others;
    if order == [] {
      CoversNothing(h, order);
      at := [];
    } else {
      var t, rest := order[0], order[1..];
      var mine := OnlyAt(h, t);
      var theirs := OthersAt(h, t);
      OthersCovered(h, order);
      var at' := SerialIsSerial(Others(h, t), rest);
      at := BlockThenRest(h, order, Only(h, t), Others(h, t), Serial(Others(h, t), rest), mine, theirs, at');
    }
  }

  lemma {:induction false} OthersCovered(h: seq<Event>, order: seq<Txn>)
    requires order != [] && Covers(h, order)
    ensures Covers(Others(h, order[0]), order[1..])
  {
    var o := Others(h, order[0]);
    OthersFrom(h, order[0]);
    forall i | 0 <= i < |o| ensures o[i].txn in order[1..] {
      assert o[i] in o;
      var k :| 0 <= k < |h| && h[k] == o[i];
      assert order == [order[0]] + order[1..];
    }
  }

  /** A block of one transaction in front of the serial history of the others. */
  lemma {:induction false} BlockThenRest(h: seq<Event>, order: seq<Txn>, only: seq<Event>, others: seq<Event>,
                                         s: seq<Event>, mine: seq<nat>, theirs: seq<nat>, at': seq<nat>)
    returns (at: seq<nat>)
    requires order != [] && |only| + |others| == |h|
    requires PickedAt(h, only, mine) && forall k :: 0 <= k < |mine| ==> h[mine[k]].txn == order[0]
    requires PickedAt(h, others, theirs) && forall k :: 0 <= k < |theirs| ==> h[theirs[k]].txn != order[0]
    requires Covers(others, order[1..])
    requires Rearranged(others, s, at') && OneByOne(s, order[1..], at')
    ensures Rearranged(h, only + s, at) && OneByOne(only + s, order, at)
  {
    var t := order[0];
    var moved := seq(|at'|, k requires 0 <= k < |at'| => theirs[at'[k]]);
    at := mine + moved;
    MovedDistinct(h, t, mine, theirs, at', moved);
    forall k, l | 0 <= k < l < |only + s|
      ensures Before(order, (only + s)[k].txn, (only + s)[l].txn) ||
              ((only + s)[k].txn == (only + s)[l].txn && at[k] < at[l])
    {
      if k >= |only| {
        BeforeBehind(order, s[k - |only|].txn, s[l - |only|].txn);
      } else if l >= |only| {
        var e := s[l - |only|];
        assert others[at'[l - |only|]].txn in order[1..];
        BeforeHead(order, e.txn);
      }
    }
  }

  lemma {:induction false} MovedDistinct(h: seq<Event>, t: Txn, mine: seq<nat>, theirs: seq<nat>, at': seq<nat>,
                                         moved: seq<nat>)
    requires Increasing(mine) && Increasing(theirs) && Distinct(at') && |moved| == |at'|
    requires forall k :: 0 <= k < |at'| ==> at'[k] < |theirs| && moved[k] == theirs[at'[k]]
    requires forall k :: 0 <= k < |mine| ==> mine[k] < |h| && h[mine[k]].txn == t
    requires forall k :: 0 <= k < |theirs| ==> theirs[k] < |h| && h[theirs[k]].txn != t
    ensures Distinct(mine + moved)
  {
    forall k, l | 0 <= k < l < |moved| ensures moved[k] != moved[l] {
      assert at'[k] < at'[l] || at'[l] < at'[k];
    }
  }

  lemma {:induction false} BeforeBehind(order: seq<Txn>, a: Txn, b: Txn)
    requires order != []
    ensures Before(order[1..], a, b) ==> Before(order, a, b)
  {
    if x, y :| 0 <= x < y < |order| - 1 && order[1..][x] == a && order[1..][y] == b {
      assert order[x + 1] == a && order[y + 1] == b;
    }
  }

  lemma {:induction false} BeforeHead(order: seq<Txn>, b: Txn)
    requires order != [] && b in order[1..]
    ensures Before(order, order[0], b)
  {
    var y :| 0 <= y < |order[1..]| && order[1..][y] == b;
    assert order[y + 1] == b;
  }

  // --- Reads and writes ---

  ghost predicate Writes(e: Event, rid: Rid) {
    e.Write? && e.rid == rid
  }

  /** Event `k` is the last to write the row. */
  ghost predicate LastWrite(h: seq<Event>, rid: Rid, k: nat) {
    k < |h| && Writes(h[k], rid) && forall j :: k < j < |h| ==> !Writes(h[j], rid)
  }

  /** `v` is what is to be found in the row after `h`: what was last written there, else what was there before, which
      in an empty row is zero. */
  ghost predicate Newest(h: seq<Event>, db: Store, rid: Rid, v: int) {
    && (forall k: nat :: k < |h| && LastWrite(h, rid, k) ==> v == h[k].value)
    && ((forall k :: 0 <= k < |h| ==> !Writes(h[k], rid)) ==> v == if rid in db then db[rid] else 0)
  }

  lemma {:induction false} ExecSnoc(h: seq<Event>, e: Event, db: Store)
    ensures Exec(h + [e], db) == Effect(Exec(h, db), e)
  {
    ExecConcat(h, [e], db, 0);
    assert [e][1..] == [];
  }

  /** After a history every row holds what was last written to it. */
  lemma {:induction false} ExecNewest(h: seq<Event>, db: Store, rid: Rid)
    ensures Newest(h, db, rid, Value(Exec(h, db), rid))
  {
    if h != [] {
      var n := |h| - 1;
      ExecNewest(h[..n], db, rid);
      ExecSnoc(h[..n], h[n], db);
      assert h == h[..n] + [h[n]];
      assert forall j :: 0 <= j < n ==> h[..n][j] == h[j];
      forall k: nat | k < |h| && LastWrite(h, rid, k)
        ensures if Writes(h[n], rid) then k == n else k < n && LastWrite(h[..n], rid, k)
      {
      }
    }
  }

  /** Where the reads of `t` stand. */
  ghost predicate ReadsStand(h: seq<Event>, t: Txn, at: seq<nat>) {
    Increasing(at) && forall k: nat :: k in at <==> k < |h| && h[k].Read? && h[k].txn == t
  }

  /** What the reads there return. */
  ghost predicate ReadsReturn(h: seq<Event>, db: Store, at: seq<nat>, vs: seq<int>) {
    |at| == |vs| && forall i :: 0 <= i < |at| ==> at[i] < |h| && ReadReturns(h, db, at[i], vs[i])
  }

  ghost predicate ReadReturns(h: seq<Event>, db: Store, k: nat, v: int)
    requires k < |h|
  {
    h[k].Read? && Newest(h[..k], db, h[k].rid, v)
  }

  /** Each read returns what was last written to its row before it. */
  lemma {:induction false} ReadsNewest(h: seq<Event>, db: Store, t: Txn) returns (at: seq<nat>)
    ensures ReadsStand(h, t, at) && ReadsReturn(h, db, at, Reads(h, db, t))
  {
    hide Exec, Reads, Value, ReadReturns, ReadsStand;
    at := [];
    NoReads(db, t);
    if h != [] {
      var n := |h| - 1;
      at := ReadsNewest(h[..n], db, t);
      ReadsSnoc(h[..n], h[n], db, t);
      assert h == h[..n] + [h[n]];
      ReadsStandNext(h[..n], h[n], t, at);
      ReadsReturnNext(h[..n], h[n], db, at, Reads(h[..n], db, t));
      at := if h[n].Read? && h[n].txn == t then at + [n] else at;
    }
  }

  lemma {:induction false} NoReads(db: Store, t: Txn)
    ensures Reads([], db, t) == [] && ReadsStand([], t, [])
  {
  }

  lemma {:induction false} ReadsSnoc(h: seq<Event>, e: Event, db: Store, t: Txn)
    ensures Reads(h + [e], db, t) ==
            Reads(h, db, t) + if e.Read? && e.txn == t then [Value(Exec(h, db), e.rid)] else []
  {
    ExecConcat(h, [e], db, t);
    ReadsOne(e, Exec(h, db), t);
  }

  lemma {:induction false} ReadsStandNext(h: seq<Event>, e: Event, t: Txn, at: seq<nat>)
    requires ReadsStand(h, t, at)
    ensures ReadsStand(h + [e], t, if e.Read? && e.txn == t then at + [|h|] else at)
  {
    var longer, mine := h + [e], e.Read? && e.txn == t;
    var at' := if mine then at + [|h|] else at;
    assert Increasing(at') by {
      forall i | 0 <= i < |at| ensures at[i] < |h| { assert at[i] in at; }
    }
    hide Increasing;
    forall k: nat ensures k in at' <==> k < |longer| && longer[k].Read? && longer[k].txn == t {
      assert k in at' <==> k in at || (mine && k == |h|);
      if k < |h| { assert longer[k] == h[k]; }
    }
  }

  lemma {:induction false} ReadsReturnNext(h: seq<Event>, e: Event, db: Store, at: seq<nat>, vs: seq<int>)
    requires ReadsReturn(h, db, at, vs)
    ensures ReadsReturn(h + [e], db, at, vs)
    ensures e.Read? ==> ReadReturns(h + [e], db, |h|, Value(Exec(h, db), e.rid))
  {
    hide Newest, Exec, Value;
    var longer := h + [e];
    if e.Read? { ExecNewest(h, db, e.rid); }
    forall i | 0 <= i < |at| ensures ReadReturns(longer, db, at[i], vs[i]) {
      assert ReadReturns(h, db, at[i], vs[i]);
      assert longer[..at[i]] == h[..at[i]];
    }
    assert longer[..|h|] == h;
  }

  // --- Interleaved histories are legal ---

  /** Two transactions on two rows, the second writing first and releasing first. */
  lemma {:induction false} InterleavedIsLegal(a: Rid, b: Rid, v: int, w: int)
    requires a != b
    ensures Legal([Lock(1, a, Exclusive), Lock(2, b, Exclusive), Write(2, b, v), Write(1, a, w), Unlock(2), Unlock(1)])
  {
    hide Run, HoldsLock, Acquire, Release;
    var h := [Lock(1, a, Exclusive), Lock(2, b, Exclusive), Write(2, b, v), Write(1, a, w), Unlock(2), Unlock(1)];
    var h1, h2 := [Lock(1, a, Exclusive)], [Lock(1, a, Exclusive), Lock(2, b, Exclusive)];
    RunNothing();
    RunMore([], Lock(1, a, Exclusive));
    assert [] + [Lock(1, a, Exclusive)] == h1;
    GrantedAtOnce(EMPTY, 1, a, Exclusive, []);
    FrontHeld(Run(h1), 1, a);
    RunMore(h1, Lock(2, b, Exclusive));
    assert h1 + [Lock(2, b, Exclusive)] == h2;
    GrantedAtOnce(Run(h1), 2, b, Exclusive, []);
    FrontHeld(Run(h2), 2, b);
    assert h[..1] == h1 && h[..2] == h2;
    HeldUntilRelease(h, 1, 3, 1, a, Exclusive);
    forall i | 0 <= i < |h| ensures AccessLegal(Run(h[..i]), h[i]) {
      HeldEnough(Run(h[..i]), h[i]);
    }
  }

  lemma {:induction false} FrontHeld(s: State, t: Txn, rid: Rid)
    requires QueueOf(s.table, rid) == [] + [Request(t, Exclusive, true)]
    ensures HoldsLock(s, t, rid, Exclusive)
  {
    assert s.table[rid][0].granted;
  }

  lemma {:induction false} HeldEnough(s: State, e: Event)
    requires e.Write? ==> HoldsLock(s, e.txn, e.rid, Exclusive)
    ensures !e.Read? ==> AccessLegal(s, e)
  {
  }
}
