/** The queue table as the handlers see it: one shared table whose rows
    the join, print, next, remove and reset handlers change in place, and
    the log of messages pushed to the displays after each change. */
module QueueSystem {
  import opened Wrappers
  import opened Decimal
  import opened QueueState

  /** A message pushed to the subscribed displays. */
  datatype Event = QueueUpdated(snapshot: Snapshot) | NumberRemoved(number: string, hash: string)

  /** What the join and print handlers hand to the visitor. */
  datatype NewTicket = NewTicket(number: string, hash: string)

  /** The insert of a new row broke the uniqueness of `number`. */
  datatype CreateError = DuplicateNumber(number: string)

  /** The status field of a handler's JSON reply: "success" or "error". */
  datatype Reply = Ack | NotFound

  class QueueTable {
    /** The digest that turns a ticket number into its public hash. */
    const digest: string -> string
    /** The rows of the table, in id order. */
    var entries: seq<Entry>
    /** Every message pushed so far, oldest first. */
    var events: seq<Event>

    ghost predicate Valid()
      reads this
    {
      WellFormed(entries, digest)
    }

    /** Sequential numbering: what every table built by these handlers from
        an empty table satisfies. */
    ghost predicate Numbered()
      reads this
    {
      Sequential(entries)
    }

    /** Opens the table with the rows already stored in it. */
    constructor (digest: string -> string, rows: seq<Entry>)
      requires WellFormed(rows, digest)
      ensures Valid() && this.digest == digest && entries == rows && events == []
    {
      this.digest := digest;
      entries := rows;
      events := [];
    }

    /** Joining the queue or printing a ticket: a new active row with the
        next number and its hash, then a broadcast of the snapshot. If the
        next number is already stored the insert is rejected and nothing
        changes. */
    method Create() returns (r: Result<NewTicket, CreateError>)
      requires Valid()
      modifies this
      ensures Valid()
      ensures var n := NextNumber(old(entries));
        if Find(old(entries), NumberIs(n)).Some? then
          && r == Failure(DuplicateNumber(n))
          && entries == old(entries) && events == old(events)
        else
          && r == Success(NewTicket(n, digest(n)))
          && entries == AfterCreate(old(entries), digest)
          && Evolves(old(entries), entries)
          && SnapshotOf(entries).queue == old(SnapshotOf(entries)).queue + [Item(n, digest(n), Active)]
          && events == old(events) + [QueueUpdated(SnapshotOf(entries))]
      ensures old(Numbered()) ==>
        && Numbered()
        && r == Success(NewTicket(Format03(old(|entries|) + 1), digest(Format03(old(|entries|) + 1))))
    {
      var n := NextNumber(entries);
      if old(Numbered()) {
        NextNumberSequential(entries);
        CreateSequential(entries, digest);
      }
      if Find(entries, NumberIs(n)).Some? {
        r := Failure(DuplicateNumber(n));
        return;
      }
      CreateWellFormed(entries, digest);
      CreateSpec(entries, digest);
      var h := digest(n);
      entries := entries + [Entry(NextId(entries), n, h, Active)];
      events := events + [QueueUpdated(SnapshotOf(entries))];
      r := Success(NewTicket(n, h));
    }

    /** Calling the next ticket: the oldest active row becomes called and
        the snapshot is broadcast; with no active row nothing happens. The
        reply is a success either way. */
    method Advance() returns (reply: Reply)
      requires Valid()
      modifies this
      ensures Valid() && reply == Ack
      ensures entries == AfterAdvance(old(entries)) && Evolves(old(entries), entries)
      ensures match Find(old(entries), ActiveStatus)
        case None => entries == old(entries) && events == old(events)
        case Some(k) =>
          && entries == old(entries)[k := old(entries)[k].(status := Called)]
          && events == old(events) + [QueueUpdated(SnapshotOf(entries))]
      ensures old(SnapshotOf(entries)).queue != [] ==>
        SnapshotOf(entries).queue == old(SnapshotOf(entries)).queue[1..]
      ensures old(Numbered()) ==> Numbered()
    {
      TransitionsPreserve(entries, digest, "");
      AdvanceSpec(entries);
      AdvanceSnapshot(entries);
      var first := Find(entries, ActiveStatus);
      if first.Some? {
        var k := first.value;
        entries := entries[k := entries[k].(status := Called)];
        events := events + [QueueUpdated(SnapshotOf(entries))];
      }
      reply := Ack;
    }

    /** Removing a number: the first row with that number becomes removed,
        whatever its status, and the snapshot and the removed number are
        broadcast; an unknown number is reported and changes nothing. */
    method Remove(number: string) returns (reply: Reply)
      requires Valid()
      modifies this
      ensures Valid()
      ensures entries == AfterRemove(old(entries), number) && Evolves(old(entries), entries)
      ensures match Find(old(entries), NumberIs(number))
        case None =>
          && reply == NotFound
          && entries == old(entries) && events == old(events)
        case Some(i) =>
          && reply == Ack
          && entries == old(entries)[i := old(entries)[i].(status := Removed)]
          && events == old(events) + [QueueUpdated(SnapshotOf(entries)), NumberRemoved(number, old(entries)[i].hash)]
      ensures forall k :: 0 <= k < |SnapshotOf(entries).queue| ==> SnapshotOf(entries).queue[k].number != number
      ensures old(Numbered()) ==> Numbered()
    {
      TransitionsPreserve(entries, digest, number);
      RemoveSpec(entries, number);
      RemoveSnapshot(entries, number);
      var found := Find(entries, NumberIs(number));
      if found.None? {
        reply := NotFound;
        return;
      }
      var i := found.value;
      var hash := entries[i].hash;
      entries := entries[i := entries[i].(status := Removed)];
      events := events + [QueueUpdated(SnapshotOf(entries)), NumberRemoved(number, hash)];
      reply := Ack;
    }

    /** Resetting the queue: every row is deleted and an empty queue is
        broadcast, so numbering starts again at "001". */
    method Reset() returns (reply: Reply)
      requires Valid()
      modifies this
      ensures Valid() && Numbered() && reply == Ack
      ensures entries == []
      ensures events == old(events) + [QueueUpdated(Snapshot([], None))]
      ensures SnapshotOf(entries) == Snapshot([], None) && NextNumber(entries) == "001"
    {
      entries := [];
      events := events + [QueueUpdated(Snapshot([], None))];
      reply := Ack;
    }
  }
}
