/** The ticket table as a value: its rows, the lookups the handlers run on
    it, the broadcast snapshot, the position lookup, and each handler's
    effect on the rows as a function, with the properties they keep.

    The table is a sequence of rows in ascending `id` order. */
module QueueState {
  import opened Wrappers
  import opened Decimal

  datatype Status = Active | Called | Removed

  /** One row of the queue table (the random `token` column is never read
      and is not modelled). */
  datatype Entry = Entry(id: nat, number: string, hash: string, status: Status)

  /** The row filters the handlers use. */
  datatype Query = ActiveStatus | NumberIs(number: string) | HashIs(hash: string) | IdIs(id: nat)

  predicate Matches(e: Entry, q: Query) {
    match q
    case ActiveStatus => e.status == Active
    case NumberIs(n) => e.number == n
    case HashIs(h) => e.hash == h
    case IdIs(i) => e.id == i
  }

  /** First row (in id order) that passes the filter, as an index. */
  function Find(es: seq<Entry>, q: Query): (r: Option<nat>)
    ensures r.Some? ==> r.value < |es| && Matches(es[r.value], q)
    ensures r.Some? ==> forall j :: 0 <= j < r.value ==> !Matches(es[j], q)
    ensures r.None? <==> forall j :: 0 <= j < |es| ==> !Matches(es[j], q)
  {
    if es == [] then None
    else if Matches(es[0], q) then Some(0)
    else match Find(es[1..], q)
      case None => None
      case Some(k) => Some(k + 1)
  }

  /** The least matching index is the one Find returns. */
  lemma {:induction false} FindFirst(es: seq<Entry>, q: Query, i: nat)
    requires i < |es| && Matches(es[i], q)
    requires forall j :: 0 <= j < i ==> !Matches(es[j], q)
    ensures Find(es, q) == Some(i)
  {
  }

  predicate IdsIncreasing(es: seq<Entry>) {
    forall i, j :: 0 <= i < j < |es| ==> es[i].id < es[j].id
  }

  predicate NumbersUnique(es: seq<Entry>) {
    forall i, j :: 0 <= i < j < |es| ==> es[i].number != es[j].number
  }

  /** What the table schema and the creating handlers guarantee of every
      stored table: `id` is the primary key (rows are kept in its order),
      `number` is unique, and each hash is the digest of its number. */
  predicate WellFormed(es: seq<Entry>, digest: string -> string) {
    && IdsIncreasing(es)
    && NumbersUnique(es)
    && forall i :: 0 <= i < |es| ==> es[i].hash == digest(es[i].number)
  }

  ghost predicate Injective(digest: string -> string) {
    forall a, b :: digest(a) == digest(b) ==> a == b
  }

  /** Every table built by this system from an empty one: the row at index
      i carries number i + 1. */
  predicate Sequential(es: seq<Entry>) {
    forall i :: 0 <= i < |es| ==> es[i].number == Format03(i + 1)
  }

  // ---------------------------------------------------------------------
  // Numbering

  /** The number the next ticket gets: one past the newest row's number,
      or "001" when the table is empty or that number does not parse. */
  function NextNumber(es: seq<Entry>): (r: string)
    ensures AllDigits(r) && |r| >= 3
    ensures es != [] && Parse(es[|es| - 1].number).Some? ==>
      var v := Parse(es[|es| - 1].number).value;
      Parse(r) == Some(v + 1) && |r| == if v + 1 < 1000 then 3 else |Show(v + 1)|
  {
    if es == [] then "001"
    else match Parse(es[|es| - 1].number)
      case Some(v) => Format03RoundTrip(v + 1); Format03(v + 1)
      case None => "001"
  }

  /** The id the store assigns to the next row: one past the largest, so
      larger than every id already stored. */
  function NextId(es: seq<Entry>): (r: nat)
    ensures r >= 1
    ensures IdsIncreasing(es) ==> forall i :: 0 <= i < |es| ==> es[i].id < r
  {
    if es == [] then 1 else es[|es| - 1].id + 1
  }

  lemma {:induction false} NextNumberFallback(es: seq<Entry>)
    requires es == [] || Parse(es[|es| - 1].number).None?
    ensures NextNumber(es) == "001"
  {
  }

  /** In a sequentially numbered table the next number is |es| + 1, it is
      not yet in the table, and it is larger than every stored number. */
  lemma {:induction false} NextNumberSequential(es: seq<Entry>)
    requires Sequential(es)
    ensures NextNumber(es) == Format03(|es| + 1)
    ensures Find(es, NumberIs(NextNumber(es))).None?
  {
    if es != [] {
      Format03RoundTrip(|es|);
    }
    NextNumberFresh(es);
  }

  lemma {:induction false} NextNumberFresh(es: seq<Entry>)
    requires Sequential(es)
    ensures forall j :: 0 <= j < |es| ==> es[j].number != Format03(|es| + 1)
  {
    forall j | 0 <= j < |es|
      ensures es[j].number != Format03(|es| + 1)
    {
      Format03Injective(j + 1, |es| + 1);
    }
  }

  /** In a sequentially numbered table the row at index i reads back as i + 1. */
  lemma {:induction false} SequentialValue(es: seq<Entry>, i: nat)
    requires Sequential(es) && i < |es|
    ensures Parse(es[i].number) == Some(i + 1)
  {
    var n := es[i].number;
    assert n == Format03(i + 1);
    Format03RoundTrip(i + 1);
  }

  /** Sequential numbering makes the numbers unique and strictly increasing
      in id order. */
  lemma {:induction false} SequentialIncreasing(es: seq<Entry>, i: nat, j: nat)
    requires Sequential(es) && i < j < |es|
    ensures Parse(es[i].number).Some? && Parse(es[j].number).Some?
    ensures Parse(es[i].number).value < Parse(es[j].number).value
    ensures es[i].number != es[j].number
  {
    SequentialValue(es, i);
    SequentialValue(es, j);
  }

  lemma {:induction false} SequentialUnique(es: seq<Entry>)
    requires Sequential(es)
    ensures NumbersUnique(es)
  {
    forall i, j | 0 <= i < j < |es|
      ensures es[i].number != es[j].number
    {
      SequentialIncreasing(es, i, j);
    }
  }

  /** With an injective digest, the hash identifies the row. */
  lemma {:induction false} HashesUnique(es: seq<Entry>, digest: string -> string, i: nat, j: nat)
    requires WellFormed(es, digest) && Injective(digest)
    requires i < |es| && j < |es| && es[i].hash == es[j].hash
    ensures i == j
  {
  }

  // ---------------------------------------------------------------------
  // The active set and the snapshot

  /** The active rows, in id order: a sub-list of the table, each of them
      active. */
  function Actives(es: seq<Entry>): (a: seq<Entry>)
    ensures |a| <= |es|
    ensures forall k :: 0 <= k < |a| ==> a[k].status == Active
  {
    if es == [] then []
    else (if es[0].status == Active then [es[0]] else []) + Actives(es[1..])
  }

  lemma {:induction false} ActivesAppend(a: seq<Entry>, b: seq<Entry>)
    ensures Actives(a + b) == Actives(a) + Actives(b)
  {
    if a != [] {
      assert (a + b)[1..] == a[1..] + b;
      ActivesAppend(a[1..], b);
    } else {
      assert a + b == b;
    }
  }

  /** The active rows are rows of the table, each of them active. */
  lemma {:induction false} ActivesIn(es: seq<Entry>)
    ensures forall e :: e in Actives(es) ==> e in es && e.status == Active
  {
    if es != [] {
      ActivesIn(es[1..]);
    }
  }

  lemma {:induction false} ActivesNone(es: seq<Entry>)
    requires forall j :: 0 <= j < |es| ==> es[j].status != Active
    ensures Actives(es) == []
  {
    if es != [] {
      ActivesNone(es[1..]);
    }
  }

  lemma {:induction false} ActivesIncreasing(es: seq<Entry>)
    requires IdsIncreasing(es)
    ensures IdsIncreasing(Actives(es))
  {
    if es != [] {
      ActivesIncreasing(es[1..]);
      ActivesIn(es[1..]);
      var rest := Actives(es[1..]);
      forall k | 0 <= k < |rest|
        ensures es[0].id < rest[k].id
      {
        assert rest[k] in es[1..];
      }
    }
  }

  /** The rank of an active row among the active rows is the number of
      active rows before it. */
  lemma {:induction false} ActiveRank(es: seq<Entry>, i: nat)
    requires i < |es| && es[i].status == Active
    ensures |Actives(es[..i])| < |Actives(es)|
    ensures Actives(es)[|Actives(es[..i])|] == es[i]
  {
    assert es == es[..i] + [es[i]] + es[i + 1..];
    ActivesAppend(es[..i] + [es[i]], es[i + 1..]);
    ActivesAppend(es[..i], [es[i]]);
    assert Actives([es[i]]) == [es[i]] by {
      assert [es[i]][1..] == [];
    }
  }

  /** Ranks follow id order. */
  lemma {:induction false} RankMonotone(es: seq<Entry>, i: nat, j: nat)
    requires i < j <= |es| && es[i].status == Active
    ensures |Actives(es[..i])| < |Actives(es[..j])|
  {
    assert es[..j] == es[..i] + [es[i]] + es[i + 1..j];
    ActivesAppend(es[..i] + [es[i]], es[i + 1..j]);
    ActivesAppend(es[..i], [es[i]]);
    assert Actives([es[i]]) == [es[i]] by {
      assert [es[i]][1..] == [];
    }
  }

  lemma {:induction false} ActivesSingle(e: Entry)
    ensures Actives([e]) == if e.status == Active then [e] else []
  {
    assert [e][1..] == [];
  }

  lemma {:induction false} ActivesCons(e: Entry, rest: seq<Entry>)
    ensures Actives([e] + rest) == Actives([e]) + Actives(rest)
  {
    assert ([e] + rest)[1..] == rest;
    ActivesSingle(e);
  }

  /** The active rows of a table, split around row k. */
  lemma {:induction false} ActivesSplit(es: seq<Entry>, k: nat)
    requires k < |es|
    ensures Actives(es) == Actives(es[..k]) + Actives([es[k]]) + Actives(es[k + 1..])
  {
    var pre, post := es[..k], [es[k]] + es[k + 1..];
    assert es == pre + post;
    ActivesAppend(pre, post);
    ActivesCons(es[k], es[k + 1..]);
  }

  /** The active rows of a table whose row k is replaced by e. */
  lemma {:induction false} ActivesReplace(es: seq<Entry>, k: nat, e: Entry)
    requires k < |es|
    ensures Actives(es[k := e]) == Actives(es[..k]) + Actives([e]) + Actives(es[k + 1..])
  {
    var es' := es[k := e];
    ActivesSplit(es', k);
    assert es'[..k] == es[..k] && es'[k + 1..] == es[k + 1..];
  }

  datatype Item = Item(number: string, hash: string, status: Status)

  /** The broadcast payload: the active rows and the one now being served. */
  datatype Snapshot = Snapshot(queue: seq<Item>, current: Option<string>)

  function ItemOf(e: Entry): Item {
    Item(e.number, e.hash, e.status)
  }

  function Items(es: seq<Entry>): seq<Item> {
    seq(|es|, k requires 0 <= k < |es| => ItemOf(es[k]))
  }

  /** The broadcast payload for a table: one item per active row, and a
      current number exactly when that list is not empty, namely the number
      of its head. */
  function SnapshotOf(es: seq<Entry>): (s: Snapshot)
    ensures |s.queue| == |Actives(es)|
    ensures s.current.None? <==> s.queue == []
    ensures s.current.Some? ==> s.current.value == s.queue[0].number
  {
    var a := Actives(es);
    Snapshot(Items(a), if a == [] then None else Some(a[0].number))
  }

  /** Every entry of the active list is an active row of the table, at the
      rank given by the number of active rows before it. */
  lemma {:induction false} ActivesOrigin(es: seq<Entry>, k: nat) returns (i: nat)
    requires k < |Actives(es)|
    ensures i < |es| && es[i].status == Active
    ensures |Actives(es[..i])| == k && Actives(es)[k] == es[i]
  {
    ActivesSingle(es[0]);
    if es[0].status == Active && k == 0 {
      assert es[..0] == [];
      i := 0;
    } else {
      var j := ActivesOrigin(es[1..], k - |Actives([es[0]])|);
      ActivesPrefix(es, j);
      i := j + 1;
    }
  }

  /** The active rows among the first j + 1 rows: the first row's share
      and those among the j rows after it. */
  lemma {:induction false} ActivesPrefix(es: seq<Entry>, j: nat)
    requires j < |es| - 1
    ensures Actives(es[..j + 1]) == Actives([es[0]]) + Actives(es[1..][..j])
  {
    assert es[..j + 1] == [es[0]] + es[1..][..j];
    ActivesCons(es[0], es[1..][..j]);
  }

  /** `item` shows an active row of the table with k active rows before it. */
  predicate RankedRow(es: seq<Entry>, k: nat, item: Item) {
    exists i :: 0 <= i < |es| && es[i].status == Active && |Actives(es[..i])| == k && item == ItemOf(es[i])
  }

  /** The snapshot lists exactly the active rows in id order: every listed
      ticket is an active row, listed at index k when k active rows come
      before it, and every active row is listed so. */
  lemma {:induction false} SnapshotQueue(es: seq<Entry>)
    ensures |SnapshotOf(es).queue| == |Actives(es)|
    ensures forall k :: 0 <= k < |SnapshotOf(es).queue| ==> SnapshotOf(es).queue[k].status == Active
    ensures forall k :: 0 <= k < |SnapshotOf(es).queue| ==> RankedRow(es, k, SnapshotOf(es).queue[k])
    ensures forall i :: 0 <= i < |es| && es[i].status == Active ==>
      |Actives(es[..i])| < |SnapshotOf(es).queue| &&
      SnapshotOf(es).queue[|Actives(es[..i])|] == ItemOf(es[i])
  {
    var a := Actives(es);
    var q := SnapshotOf(es).queue;
    assert q == Items(a);
    forall i | 0 <= i < |es| && es[i].status == Active
      ensures |Actives(es[..i])| < |q| && q[|Actives(es[..i])|] == ItemOf(es[i])
    {
      ActiveRank(es, i);
    }
    forall k | 0 <= k < |SnapshotOf(es).queue|
      ensures RankedRow(es, k, SnapshotOf(es).queue[k])
    {
      var i := ActivesOrigin(es, k);
      assert SnapshotOf(es).queue[k] == ItemOf(a[k]) == ItemOf(es[i]);
    }
  }

  /** `current` is the number of the oldest active row, and is absent
      exactly when no row is active (the snapshot is then empty). */
  lemma {:induction false} SnapshotCurrent(es: seq<Entry>)
    ensures SnapshotOf(es).current.None? <==> forall i :: 0 <= i < |es| ==> es[i].status != Active
    ensures match Find(es, ActiveStatus)
      case Some(k) => SnapshotOf(es).current == Some(es[k].number)
      case None => SnapshotOf(es) == Snapshot([], None)
  {
    match Find(es, ActiveStatus)
    case Some(k) =>
      ActiveRank(es, k);
      ActivesNone(es[..k]);
      assert Actives(es)[0] == es[k];
    case None =>
      ActivesNone(es);
  }

  // ---------------------------------------------------------------------
  // Position lookup

  /** What the status page shows for a ticket hash. */
  datatype TicketView = Invalid | Ticket(number: string, status: Status, position: Option<nat>)

  function StatusOf(es: seq<Entry>, hash: string): (r: TicketView)
    ensures r.Invalid? <==> forall i :: 0 <= i < |es| ==> es[i].hash != hash
    ensures r.Ticket? ==> exists i ::
      0 <= i < |es| && es[i].hash == hash && r.number == es[i].number && r.status == es[i].status
    ensures r.Ticket? && r.position.Some? ==>
      r.status == Active && 1 <= r.position.value <= |Actives(es)|
  {
    match Find(es, HashIs(hash))
    case None => Invalid
    case Some(i) =>
      var e := es[i];
      if e.status == Active then
        var a := Actives(es);
        Ticket(e.number, e.status, match Find(a, IdIs(e.id)) case Some(p) => Some(p + 1) case None => None)
      else
        Ticket(e.number, e.status, None)
  }

  /** An active ticket's position is one more than the number of active
      tickets with a smaller id, so it lies in 1..|active|. */
  lemma {:induction false} StatusOfActive(es: seq<Entry>, digest: string -> string, i: nat)
    requires WellFormed(es, digest) && Injective(digest)
    requires i < |es| && es[i].status == Active
    ensures StatusOf(es, es[i].hash) == Ticket(es[i].number, Active, Some(1 + |Actives(es[..i])|))
    ensures 1 <= 1 + |Actives(es[..i])| <= |SnapshotOf(es).queue|
  {
    FindFirst(es, HashIs(es[i].hash), i);
    var a := Actives(es);
    var r := |Actives(es[..i])|;
    ActiveRank(es, i);
    ActivesIncreasing(es);
    FindFirst(a, IdIs(es[i].id), r);
  }

  /** A ticket that is no longer active has no position. */
  lemma {:induction false} StatusOfInactive(es: seq<Entry>, digest: string -> string, i: nat)
    requires WellFormed(es, digest) && Injective(digest)
    requires i < |es| && es[i].status != Active
    ensures StatusOf(es, es[i].hash) == Ticket(es[i].number, es[i].status, None)
  {
    FindFirst(es, HashIs(es[i].hash), i);
  }

  /** A hash that no row carries is reported as invalid, and only such a hash. */
  lemma {:induction false} StatusOfUnknown(es: seq<Entry>, hash: string)
    ensures StatusOf(es, hash) == Invalid <==> forall i :: 0 <= i < |es| ==> es[i].hash != hash
  {
  }

  // ---------------------------------------------------------------------
  // Transitions

  function NewEntry(es: seq<Entry>, digest: string -> string): Entry {
    var n := NextNumber(es);
    Entry(NextId(es), n, digest(n), Active)
  }

  /** Joining the queue (or printing a ticket) appends a new active row. */
  function AfterCreate(es: seq<Entry>, digest: string -> string): (r: seq<Entry>)
    ensures |r| == |es| + 1 && r[..|es|] == es
    ensures r[|es|].status == Active && r[|es|].hash == digest(r[|es|].number)
  {
    es + [NewEntry(es, digest)]
  }

  /** Calling the next ticket marks the oldest active row as called. */
  function AfterAdvance(es: seq<Entry>): (r: seq<Entry>)
    ensures |r| == |es| && Evolves(es, r)
  {
    match Find(es, ActiveStatus)
    case None => es
    case Some(k) => es[k := es[k].(status := Called)]
  }

  /** Removing a number marks the first row with that number as removed,
      whatever its status. */
  function AfterRemove(es: seq<Entry>, number: string): (r: seq<Entry>)
    ensures |r| == |es| && Evolves(es, r)
  {
    match Find(es, NumberIs(number))
    case None => es
    case Some(k) => es[k := es[k].(status := Removed)]
  }

  /** How a table may change short of a reset: rows are only added at the
      end, their id, number and hash never change, and a row that has left
      the active state never returns to it. */
  predicate Evolves(before: seq<Entry>, after: seq<Entry>) {
    && |before| <= |after|
    && forall i :: 0 <= i < |before| ==>
      && after[i].id == before[i].id
      && after[i].number == before[i].number
      && after[i].hash == before[i].hash
      && (before[i].status != Active ==> after[i].status != Active)
  }

  lemma {:induction false} EvolvesSequential(before: seq<Entry>, after: seq<Entry>)
    requires Evolves(before, after) && |after| == |before| && Sequential(before)
    ensures Sequential(after)
  {
  }

  /** Create keeps every existing row, adds one active row whose hash is
      the digest of its number, and adds it at the end of the snapshot. */
  lemma {:induction false} CreateSpec(es: seq<Entry>, digest: string -> string)
    ensures Evolves(es, AfterCreate(es, digest))
    ensures |AfterCreate(es, digest)| == |es| + 1 && AfterCreate(es, digest)[..|es|] == es
    ensures var e := AfterCreate(es, digest)[|es|];
      && e.number == NextNumber(es) && e.hash == digest(e.number) && e.status == Active
      && SnapshotOf(AfterCreate(es, digest)).queue == SnapshotOf(es).queue + [ItemOf(e)]
      && SnapshotOf(AfterCreate(es, digest)).current ==
           if SnapshotOf(es).current.None? then Some(e.number) else SnapshotOf(es).current
  {
    var e := NewEntry(es, digest);
    ActivesAppend(es, [e]);
    assert Actives([e]) == [e] by {
      assert [e][1..] == [];
    }
  }

  /** Create keeps the table well formed provided the new number is not
      already stored (otherwise the uniqueness constraint rejects it). */
  lemma {:induction false} CreateWellFormed(es: seq<Entry>, digest: string -> string)
    requires WellFormed(es, digest) && Find(es, NumberIs(NextNumber(es))).None?
    ensures WellFormed(AfterCreate(es, digest), digest)
  {
    var e := NewEntry(es, digest);
    var t := AfterCreate(es, digest);
    assert t == es + [e];
    forall i | 0 <= i < |es|
      ensures t[i] == es[i] && es[i].number != e.number && es[i].id < e.id
    {
      assert !Matches(es[i], NumberIs(e.number));
    }
  }

  /** Tickets created from a sequential table are numbered one after the
      other: the new row at index |es| gets number |es| + 1. */
  lemma {:induction false} CreateSequential(es: seq<Entry>, digest: string -> string)
    requires Sequential(es)
    ensures Sequential(AfterCreate(es, digest))
    ensures AfterCreate(es, digest)[|es|].number == Format03(|es| + 1)
  {
    NextNumberSequential(es);
    var t := AfterCreate(es, digest);
    forall i | 0 <= i < |t|
      ensures t[i].number == Format03(i + 1)
    {
      if i < |es| {
        assert t[i] == es[i];
      }
    }
  }

  /** Advance changes only the oldest active row, from active to called;
      with no active row the table is unchanged. */
  lemma {:induction false} AdvanceSpec(es: seq<Entry>)
    ensures Evolves(es, AfterAdvance(es)) && |AfterAdvance(es)| == |es|
    ensures match Find(es, ActiveStatus)
      case None => AfterAdvance(es) == es
      case Some(k) =>
        && AfterAdvance(es)[k] == es[k].(status := Called)
        && es[k].status == Active
        && forall j :: 0 <= j < |es| && j != k ==> AfterAdvance(es)[j] == es[j]
  {
  }

  /** Advance takes the head off the list of active rows. */
  lemma {:induction false} AdvanceActives(es: seq<Entry>)
    ensures Actives(es) == [] ==> AfterAdvance(es) == es
    ensures Actives(es) != [] ==> Actives(AfterAdvance(es)) == Actives(es)[1..]
  {
    match Find(es, ActiveStatus)
    case None =>
      ActivesNone(es);
    case Some(k) =>
      ActivesNone(es[..k]);
      ActivesSplit(es, k);
      ActivesReplace(es, k, es[k].(status := Called));
      ActivesSingle(es[k]);
      ActivesSingle(es[k].(status := Called));
  }

  /** After an advance the snapshot loses its head: the called ticket
      leaves the queue and the next active ticket becomes current. */
  lemma {:induction false} AdvanceSnapshot(es: seq<Entry>)
    ensures var s, t := SnapshotOf(es), SnapshotOf(AfterAdvance(es));
      && (s.queue == [] ==> t == s)
      && (s.queue != [] ==> t.queue == s.queue[1..])
      && (s.queue != [] ==> t.current == if |s.queue| > 1 then Some(s.queue[1].number) else None)
  {
    AdvanceActives(es);
    var a := Actives(es);
    if a != [] {
      var b := a[1..];
      assert Actives(AfterAdvance(es)) == b;
      assert Items(b) == Items(a)[1..];
      assert SnapshotOf(AfterAdvance(es)).queue == Items(b);
      if |a| > 1 {
        assert b[0] == a[1];
      }
    }
  }

  /** Remove of a stored number marks that row as removed, whatever its
      status, and changes nothing else; an unknown number changes nothing. */
  lemma {:induction false} RemoveSpec(es: seq<Entry>, number: string)
    ensures Evolves(es, AfterRemove(es, number)) && |AfterRemove(es, number)| == |es|
    ensures (forall i :: 0 <= i < |es| ==> es[i].number != number) ==> AfterRemove(es, number) == es
    ensures forall i :: 0 <= i < |es| && es[i].number == number && NumbersUnique(es) ==>
      && AfterRemove(es, number)[i] == es[i].(status := Removed)
      && forall j :: 0 <= j < |es| && j != i ==> AfterRemove(es, number)[j] == es[j]
  {
    forall i | 0 <= i < |es| && es[i].number == number && NumbersUnique(es)
      ensures Find(es, NumberIs(number)) == Some(i)
    {
      FindFirst(es, NumberIs(number), i);
    }
  }

  /** Removing the same number twice leaves the table as one removal does. */
  lemma {:induction false} RemoveIdempotent(es: seq<Entry>, number: string)
    ensures AfterRemove(AfterRemove(es, number), number) == AfterRemove(es, number)
  {
    match Find(es, NumberIs(number))
    case None =>
    case Some(k) =>
      var es' := AfterRemove(es, number);
      FindFirst(es', NumberIs(number), k);
  }

  /** After removing a stored number the active rows are those from
      before, less the removed row. */
  lemma {:induction false} RemoveActives(es: seq<Entry>, number: string, i: nat)
    requires Find(es, NumberIs(number)) == Some(i)
    ensures Actives(es) == Actives(es[..i]) + Actives([es[i]]) + Actives(es[i + 1..])
    ensures Actives(AfterRemove(es, number)) == Actives(es[..i]) + Actives(es[i + 1..])
  {
    var e := es[i].(status := Removed);
    assert AfterRemove(es, number) == es[i := e];
    ActivesSplit(es, i);
    ActivesReplace(es, i, e);
    ActivesSingle(e);
    assert Actives(es[..i]) + [] == Actives(es[..i]);
  }

  /** After removing a stored number, no ticket in the snapshot carries it. */
  lemma {:induction false} RemoveSnapshot(es: seq<Entry>, number: string)
    requires NumbersUnique(es)
    ensures forall k :: 0 <= k < |SnapshotOf(AfterRemove(es, number)).queue| ==>
      SnapshotOf(AfterRemove(es, number)).queue[k].number != number
  {
    var es' := AfterRemove(es, number);
    ActivesIn(es');
    var a' := Actives(es');
    forall k | 0 <= k < |a'|
      ensures a'[k].number != number
    {
      assert a'[k] in es';
      var j :| 0 <= j < |es'| && es'[j] == a'[k];
      match Find(es, NumberIs(number))
      case None =>
      case Some(i) =>
        assert j != i;
    }
  }

  /** Every transition short of a reset keeps the table well formed and
      keeps sequential numbering. */
  lemma {:induction false} TransitionsPreserve(es: seq<Entry>, digest: string -> string, number: string)
    requires WellFormed(es, digest)
    ensures WellFormed(AfterAdvance(es), digest)
    ensures WellFormed(AfterRemove(es, number), digest)
    ensures Sequential(es) ==> Sequential(AfterAdvance(es)) && Sequential(AfterRemove(es, number))
  {
    AdvanceSpec(es);
    RemoveSpec(es, number);
    if Sequential(es) {
      EvolvesSequential(es, AfterAdvance(es));
      EvolvesSequential(es, AfterRemove(es, number));
    }
  }

  /** A reset empties the table: the snapshot is empty, numbering restarts
      at "001" and the empty table is sequential. */
  lemma {:induction false} ResetSpec()
    ensures SnapshotOf([]) == Snapshot([], None)
    ensures NextNumber([]) == "001"
    ensures Sequential([])
  {
  }

  /** Three tickets taken from an empty table are "001", "002" and "003";
      the first of them is current. */
  lemma {:induction false} SessionCreate(digest: string -> string)
    ensures var t3 := AfterCreate(AfterCreate(AfterCreate([], digest), digest), digest);
      && |t3| == 3
      && t3[0].number == "001" && t3[1].number == "002" && t3[2].number == "003"
      && (forall i :: 0 <= i < 3 ==> t3[i].status == Active && t3[i].hash == digest(t3[i].number))
      && SnapshotOf(t3).current == Some("001")
  {
    Format03Examples();
    var t0: seq<Entry> := [];
    var t1 := AfterCreate(t0, digest);
    CreateSequential(t0, digest);
    var t2 := AfterCreate(t1, digest);
    CreateSequential(t1, digest);
    var t3 := AfterCreate(t2, digest);
    CreateSequential(t2, digest);
    assert t3[0] == t2[0] == t1[0];
    assert t3[1] == t2[1];
    ActiveRank(t3, 0);
    assert t3[..0] == [];
  }

  /** Serving that queue: a call makes "001" called and "002" current. */
  lemma {:induction false} SessionAdvance(t3: seq<Entry>)
    requires |t3| == 3
    requires t3[0].number == "001" && t3[1].number == "002" && t3[2].number == "003"
    requires forall i :: 0 <= i < 3 ==> t3[i].status == Active
    ensures var t4 := AfterAdvance(t3);
      && t4 == t3[0 := t3[0].(status := Called)]
      && SnapshotOf(t4).current == Some("002")
  {
    FindFirst(t3, ActiveStatus, 0);
    var t4 := AfterAdvance(t3);
    FindFirst(t4, ActiveStatus, 1);
    SnapshotCurrent(t4);
  }

  /** Removing "003" next leaves "002" alone in the snapshot. */
  lemma {:induction false} SessionRemove(t4: seq<Entry>, digest: string -> string)
    requires |t4| == 3
    requires t4[0].number == "001" && t4[1].number == "002" && t4[2].number == "003"
    requires t4[0].status == Called && t4[1].status == Active
    requires t4[1].hash == digest("002")
    ensures SnapshotOf(AfterRemove(t4, "003")) == Snapshot([Item("002", digest("002"), Active)], Some("002"))
  {
    assert t4[0].number != "003" && t4[1].number != "003";
    FindFirst(t4, NumberIs("003"), 2);
    var t5 := AfterRemove(t4, "003");
    assert t5 == t4[2 := t4[2].(status := Removed)];
    ActivesSplit(t5, 1);
    ActivesNone(t5[..1]);
    ActivesNone(t5[2..]);
    ActivesSingle(t5[1]);
    assert Actives(t5) == [t5[1]];
    assert Items([t5[1]]) == [ItemOf(t5[1])];
  }
}
