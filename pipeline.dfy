/** The writer chain both archive operations build: a fan-out writer over the
    caller's sinks, a gzip writer over it and a tar writer over that, with
    both writers closed by deferred calls. The codecs themselves are
    abstract: the bytes the chain hands to the fan-out writer are a function
    (`codec`) of the events the chain saw. */
module Pipeline {
  import opened Common

  datatype Layer = Gzip | Tar

  /** What happens to the chain: a layer is opened or closed, or one entry
      (its header and the content copied after it) is written to the tar
      writer. */
  datatype Event = Opened(layer: Layer) | EntryWritten(entry: Entry) | Closed(layer: Layer)

  /** Deferred calls run last in, first out. */
  function Unwind(deferred: seq<Event>): (r: seq<Event>)
    ensures |r| == |deferred|
    ensures forall i | 0 <= i < |r| :: r[i] == deferred[|deferred| - 1 - i]
  {
    if deferred == [] then [] else Unwind(deferred[1..]) + [deferred[0]]
  }

  /** The whole life of the chain around a body of entry writes: gzip is
      opened and its Close deferred, then tar is opened and its Close
      deferred; on return the deferred calls run. */
  function Run(body: seq<Event>): (r: seq<Event>)
    ensures |r| == |body| + 4
    ensures r[..2] == [Opened(Gzip), Opened(Tar)]
    ensures r[2..|r| - 2] == body
    ensures r[|r| - 2..] == [Closed(Tar), Closed(Gzip)]
  {
    [Opened(Gzip), Opened(Tar)] + body + Unwind([Closed(Gzip), Closed(Tar)])
  }

  predicate OnlyEntries(body: seq<Event>)
  {
    forall i | 0 <= i < |body| :: body[i].EntryWritten?
  }

  /** Both layers are opened first, gzip outermost; nothing but entries is
      written in between; the tar writer is closed, and then the gzip writer. */
  predicate ClosedInOrder(trace: seq<Event>)
  {
    |trace| >= 4 &&
    trace[0] == Opened(Gzip) && trace[1] == Opened(Tar) &&
    OnlyEntries(trace[2..|trace| - 2]) &&
    trace[|trace| - 2] == Closed(Tar) && trace[|trace| - 1] == Closed(Gzip)
  }

  lemma RunClosesTarBeforeGzip(body: seq<Event>)
    requires OnlyEntries(body)
    ensures ClosedInOrder(Run(body))
    ensures Run(body)[2..|Run(body)| - 2] == body
  {
  }

  /** The entries of a trace, in the order they were written. */
  function Entries(trace: seq<Event>): (r: seq<Entry>)
    ensures |r| <= |trace|
  {
    if trace == [] then []
    else (if trace[0].EntryWritten? then [trace[0].entry] else []) + Entries(trace[1..])
  }

  lemma {:induction false} EntriesAppend(a: seq<Event>, b: seq<Event>)
    ensures Entries(a + b) == Entries(a) + Entries(b)
  {
    if a != [] {
      var head := if a[0].EntryWritten? then [a[0].entry] else [];
      assert (a + b)[0] == a[0] && (a + b)[1..] == a[1..] + b;
      EntriesAppend(a[1..], b);
      assert Entries(a + b) == head + Entries(a[1..] + b);
      assert Entries(a) == head + Entries(a[1..]);
    } else {
      assert a + b == b;
    }
  }

  function Written(entries: seq<Entry>): (body: seq<Event>)
    ensures |body| == |entries|
    ensures forall i | 0 <= i < |body| :: body[i] == EntryWritten(entries[i])
  {
    if entries == [] then [] else [EntryWritten(entries[0])] + Written(entries[1..])
  }

  /** The entries of a run are exactly the entries written in its body. */
  lemma {:induction false} EntriesOfRun(entries: seq<Entry>)
    ensures Entries(Run(Written(entries))) == entries
    ensures ClosedInOrder(Run(Written(entries)))
  {
    var body := Written(entries);
    EntriesOfWritten(entries);
    EntriesAppend([Opened(Gzip), Opened(Tar)], body);
    EntriesAppend([Opened(Gzip), Opened(Tar)] + body, Unwind([Closed(Gzip), Closed(Tar)]));
    assert Unwind([Closed(Gzip), Closed(Tar)]) == [Closed(Tar), Closed(Gzip)];
    assert Entries([Closed(Tar), Closed(Gzip)]) == [];
    assert Entries([Opened(Gzip), Opened(Tar)]) == [];
    RunClosesTarBeforeGzip(body);
  }

  lemma {:induction false} EntriesOfWritten(entries: seq<Entry>)
    ensures Entries(Written(entries)) == entries
  {
    if entries != [] {
      EntriesOfWritten(entries[1..]);
      assert Written(entries)[1..] == Written(entries[1..]);
    }
  }

  /** io.MultiWriter: every sink receives the same bytes, appended to what it
      held before. */
  function FanOut(sinks: seq<seq<byte>>, data: seq<byte>): (r: seq<seq<byte>>)
    ensures |r| == |sinks|
    ensures forall i | 0 <= i < |r| :: r[i] == sinks[i] + data
  {
    if sinks == [] then [] else [sinks[0] + data] + FanOut(sinks[1..], data)
  }

  /** What the sinks hold once the chain has seen `trace`. */
  function Deliver(sinks: seq<seq<byte>>, codec: seq<Event> -> seq<byte>, trace: seq<Event>): (r: seq<seq<byte>>)
    ensures |r| == |sinks|
    ensures forall i | 0 <= i < |r| :: r[i] == sinks[i] + codec(trace)
  {
    FanOut(sinks, codec(trace))
  }

  /** Every sink received the identical byte sequence. */
  predicate SameBytesAppended(before: seq<seq<byte>>, after: seq<seq<byte>>)
  {
    |after| == |before| &&
    (forall i | 0 <= i < |after| :: before[i] <= after[i]) &&
    (forall i, j | 0 <= i < |after| && 0 <= j < |after| ::
       after[i][|before[i]|..] == after[j][|before[j]|..])
  }

  lemma DeliverAppendsSameBytes(sinks: seq<seq<byte>>, codec: seq<Event> -> seq<byte>, trace: seq<Event>)
    ensures SameBytesAppended(sinks, Deliver(sinks, codec, trace))
  {
  }

  /** Sinks that start empty end up byte-for-byte equal, so a file sink and
      a digest sink see the same archive. */
  lemma EmptySinksAgree(sinks: seq<seq<byte>>, codec: seq<Event> -> seq<byte>, trace: seq<Event>, i: nat, j: nat)
    requires forall k | 0 <= k < |sinks| :: sinks[k] == []
    requires i < |sinks| && j < |sinks|
    ensures Deliver(sinks, codec, trace)[i] == Deliver(sinks, codec, trace)[j]
  {
  }
}
