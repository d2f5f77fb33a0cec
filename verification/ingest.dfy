/** The `__main__` loop of src/main.py: poll the queue, turn each message
    into a row, delete every message that was read, then write the batch's
    rows with one bulk insert. The queue and the database appear only as the
    events they receive. */
module Ingest {
  import opened Wrappers
  import opened Json
  import opened Login

  /** A message as the queue returns it. `body` is None when `json.loads`
      rejects the text, `receipt` is None when the message carries no
      ReceiptHandle; both are read BEFORE the try block. */
  datatype RawMessage = RawMessage(body: Option<JsonValue>, receipt: Option<string>)

  /** One parameter tuple of the INSERT statement. */
  type Row = seq<Cell>

  /** What the loop does to its collaborators: a `receive_message` call, a
      `delete_message` call, or one `executemany` + `commit`. */
  datatype Event = Receive | Delete(receipt: string) | Insert(rows: seq<Row>)

  /** How one pass of the loop ends: it goes round again, it leaves by the
      `break` after an empty poll, or an exception escapes. */
  datatype Outcome = Continue | Stopped | Crashed

  /** The two statements inside the try block, the constructor call and
      `getTuple`, seen as a function from the message body to its row. */
  type Normalizer = JsonValue -> Result<Row, Error>

  /** `LoginMessage(body, HASH_SECRET_SALT).getTuple()` with the clock
      showing `today`. */
  function LoginNormalizer(salt: string, today: Date, hash: Hasher): Normalizer {
    body => match Normalize(body, salt, today, hash)
            case Success(rec) => Success(GetTuple(rec))
            case Failure(e) => Failure(e)
  }

  /** The program's normalizer accepts exactly the login messages, and the
      row it yields reads back as the normalized record. */
  lemma LoginRows(salt: string, today: Date, hash: Hasher, body: JsonValue)
    ensures LoginNormalizer(salt, today, hash)(body).Success? <==> IsLoginMessage(body)
    ensures LoginNormalizer(salt, today, hash)(body).Success? ==>
      FromTuple(LoginNormalizer(salt, today, hash)(body).value)
        == Some(Normalize(body, salt, today, hash).value)
  {
  }

  predicate Readable(m: RawMessage) {
    m.body.Some? && m.receipt.Some?
  }

  /** What one message adds to the buffer: its row when normalization
      succeeds, nothing when it raises. */
  function RowsOf(m: RawMessage, normalize: Normalizer): seq<Row> {
    if m.body.None? then []
    else
      match normalize(m.body.value)
      case Success(row) => [row]
      case Failure(_) => []
  }

  /** The rows a batch yields, in arrival order. */
  function Rows(msgs: seq<RawMessage>, normalize: Normalizer): (rows: seq<Row>)
    ensures |rows| <= |msgs|
  {
    RowsUpTo(msgs, |msgs|, normalize)
  }

  /** The rows the first n messages of a batch yield: the buffer after the
      loop has seen n messages. */
  function RowsUpTo(msgs: seq<RawMessage>, n: nat, normalize: Normalizer): (rows: seq<Row>)
    requires n <= |msgs|
    ensures |rows| <= n
  {
    if n == 0 then []
    else RowsUpTo(msgs, n - 1, normalize) + RowsOf(msgs[n - 1], normalize)
  }

  /** SQS hands out a fresh receipt handle with every message it delivers. */
  predicate DistinctReceipts(msgs: seq<RawMessage>) {
    forall j, k :: 0 <= j < k < |msgs| ==> msgs[j].receipt != msgs[k].receipt
  }

  /** How many times an event occurs in a trace. */
  function Occurrences(trace: seq<Event>, e: Event): nat {
    |set k | 0 <= k < |trace| && trace[k] == e|
  }

  lemma SingleOccurrence(trace: seq<Event>, j: nat)
    requires j < |trace|
    requires forall k :: 0 <= k < |trace| && k != j ==> trace[k] != trace[j]
    ensures Occurrences(trace, trace[j]) == 1
  {
    assert (set k | 0 <= k < |trace| && trace[k] == trace[j]) == {j};
  }

  /** The insert that ends a batch, if there is anything to insert. */
  function Flush(buffer: seq<Row>): (events: seq<Event>)
    ensures |events| <= 1
    ensures events == [] <==> buffer == []
    ensures forall e :: e in events ==> e == Insert(buffer)
  {
    if |buffer| > 0 then [Insert(buffer)] else []
  }

  /** The try/except/finally around one readable message: the rows it
      adds to the buffer, and the delete that runs on every exit path. */
  method Attempt(m: RawMessage, normalize: Normalizer)
    returns (rows: seq<Row>, ack: Event)
    requires Readable(m)
    ensures rows == RowsOf(m, normalize)
    ensures ack == Delete(m.receipt.value)
  {
    var r := normalize(m.body.value);
    rows := if r.Success? then [r.value] else [];
    ack := Delete(m.receipt.value);
  }

  /** One pass of the loop body, given what `receive_message` returned
      (None when the response has no "Messages" key) and the normalizer in
      force for this pass. */
  method Iterate(response: Option<seq<RawMessage>>, normalize: Normalizer)
    returns (outcome: Outcome, buffer: seq<Row>, trace: seq<Event>)
    // an empty poll ends the loop with no delete and no insert
    ensures outcome == Stopped <==> response.None?
    ensures outcome == Stopped ==> trace == []
    // a batch read to the end: every message deleted, in order, and then one
    // insert of exactly the rows that normalized, unless there are none
    ensures outcome == Continue ==>
      var msgs := response.value;
      && (forall j :: 0 <= j < |msgs| ==> Readable(msgs[j]))
      && buffer == Rows(msgs, normalize)
      && |trace| == |msgs| + |Flush(buffer)|
      && (forall j :: 0 <= j < |msgs| ==> trace[j] == Delete(msgs[j].receipt.value))
      && trace[|msgs|..] == Flush(buffer)
    // an unreadable message escapes the try: the messages before it were
    // deleted, it and the rest were not, and nothing is inserted
    ensures outcome == Crashed ==>
      && response.Some?
      && exists k :: && 0 <= k < |response.value|
                     && !Readable(response.value[k])
                     && DeletedInOrder(response.value, trace, k)
    // with distinct receipt handles, each message is deleted exactly once
    ensures outcome == Continue && DistinctReceipts(response.value) ==>
      forall j :: 0 <= j < |response.value| ==>
        Occurrences(trace, Delete(response.value[j].receipt.value)) == 1
    // at most one insert, never empty, and it is the last thing done
    ensures forall j :: 0 <= j < |trace| && trace[j].Insert? ==> |trace[j].rows| > 0 && j == |trace| - 1
    // and all of it is the pass the reference definition describes
    ensures Pass(outcome, trace) == PassOf(response, normalize)
  {
    if response.None? {
      return Stopped, [], [];
    }
    var msgs := response.value;
    var crashed, deletes;
    crashed, buffer, deletes := ReadBatch(msgs, normalize);
    PassReference(msgs, normalize);
    if crashed {
      var k := FirstUnreadable(msgs);
      DeletesInOrder(msgs, k);
      assert !Readable(msgs[k]);
      return Crashed, buffer, deletes;
    }
    DeletesInOrder(msgs, |msgs|);
    FlushAfterDeletes(msgs, deletes, buffer);
    trace := deletes + Flush(buffer);
    outcome := Continue;
  }

  /** The `for message in response['Messages']` loop: each readable message
      goes through `Attempt`; an unreadable one raises before the try and
      ends the loop. The loop stops at the first unreadable message, or
      after the last message when there is none; by then the messages
      before that point are deleted, in order, and their rows buffered. */
  method ReadBatch(msgs: seq<RawMessage>, normalize: Normalizer)
    returns (crashed: bool, buffer: seq<Row>, deletes: seq<Event>)
    ensures crashed <==> FirstUnreadable(msgs) < |msgs|
    ensures crashed ==> |deletes| < |msgs| && !Readable(msgs[|deletes|])
    ensures !crashed ==> |deletes| == |msgs|
    ensures deletes == DeletesOf(msgs, FirstUnreadable(msgs))
    ensures buffer == RowsUpTo(msgs, FirstUnreadable(msgs), normalize)
  {
    buffer := [];
    deletes := [];
    var i := 0;
    while i < |msgs|
      invariant 0 <= i <= FirstUnreadable(msgs)
      invariant deletes == DeletesOf(msgs, i)
      invariant buffer == RowsUpTo(msgs, i, normalize)
    {
      var m := msgs[i];
      if !Readable(m) {
        return true, buffer, deletes;
      }
      var rows, ack := Attempt(m, normalize);
      buffer := buffer + rows;
      deletes := deletes + [ack];
      i := i + 1;
    }
    crashed := false;
  }

  /** Where the `for` loop leaves a batch: the position of the first
      unreadable message, or the batch's length when all are readable. */
  function FirstUnreadable(msgs: seq<RawMessage>): (k: nat)
    ensures k <= |msgs|
    ensures forall j :: 0 <= j < k ==> Readable(msgs[j])
    ensures k < |msgs| ==> !Readable(msgs[k])
  {
    if |msgs| == 0 || !Readable(msgs[0]) then 0 else 1 + FirstUnreadable(msgs[1..])
  }

  /** The first n messages are readable and were deleted, in arrival
      order, by the first n events, which are all there is. */
  predicate DeletedInOrder(msgs: seq<RawMessage>, deletes: seq<Event>, n: nat)
    requires n <= |msgs|
  {
    && |deletes| == n
    && forall j :: 0 <= j < n ==> Readable(msgs[j]) && deletes[j] == Delete(msgs[j].receipt.value)
  }

  /** The deletes the first n messages receive: one delete per message. */
  function DeletesOf(msgs: seq<RawMessage>, n: nat): (deletes: seq<Event>)
    requires n <= |msgs|
    requires forall j :: 0 <= j < n ==> Readable(msgs[j])
    ensures |deletes| == n
  {
    if n == 0 then []
    else
      assert Readable(msgs[n - 1]);
      DeletesOf(msgs, n - 1) + [Delete(msgs[n - 1].receipt.value)]
  }

  /** The deletes of the first n messages are theirs, in arrival order. */
  lemma {:induction false} DeletesInOrder(msgs: seq<RawMessage>, n: nat)
    requires n <= |msgs|
    requires forall j :: 0 <= j < n ==> Readable(msgs[j])
    ensures DeletedInOrder(msgs, DeletesOf(msgs, n), n)
  {
    if n > 0 {
      DeletesInOrder(msgs, n - 1);
    }
  }

  /** The outcome and the events of one pass. */
  datatype Pass = Pass(outcome: Outcome, events: seq<Event>)

  /** One pass as a function of the poll response: no `Messages` key stops
      the loop; otherwise the batch is walked from an empty buffer. */
  function PassOf(response: Option<seq<RawMessage>>, normalize: Normalizer): Pass {
    if response.None? then Pass(Stopped, []) else Walk(response.value, normalize, [])
  }

  /** The `for` loop over what is left of a batch, message by message, with
      the rows buffered so far: a readable message is deleted and the walk
      goes on; an unreadable one ends the pass with a crash; at the end of
      the batch the buffer is flushed. */
  function Walk(msgs: seq<RawMessage>, normalize: Normalizer, buffer: seq<Row>): (p: Pass)
    ensures p.outcome != Stopped
    decreases |msgs|
  {
    if |msgs| == 0 then Pass(Continue, Flush(buffer))
    else if !Readable(msgs[0]) then Pass(Crashed, [])
    else
      var rest := Walk(msgs[1..], normalize, buffer + RowsOf(msgs[0], normalize));
      Pass(rest.outcome, [Delete(msgs[0].receipt.value)] + rest.events)
  }

  /** Walking a batch is reading it up to the first unreadable message:
      the messages before it are deleted in order, and only a batch read
      to the end has its rows flushed. */
  lemma PassReference(msgs: seq<RawMessage>, normalize: Normalizer)
    ensures var k := FirstUnreadable(msgs);
      Walk(msgs, normalize, [])
        == if k < |msgs| then Pass(Crashed, DeletesOf(msgs, k))
           else Pass(Continue, DeletesOf(msgs, k) + Flush(Rows(msgs, normalize)))
  {
    var k := FirstUnreadable(msgs);
    WalkFrom(msgs, normalize, k);
    var rest := Walk(msgs[k..], normalize, RowsUpTo(msgs, k, normalize));
    if k < |msgs| {
      assert msgs[k..][0] == msgs[k];
      assert rest == Pass(Crashed, []);
      assert DeletesOf(msgs, k) + [] == DeletesOf(msgs, k);
    } else {
      assert msgs[k..] == [];
      assert rest == Pass(Continue, Flush(Rows(msgs, normalize)));
    }
  }

  /** After the first i readable messages, the walk has deleted them in
      order and buffered their rows. */
  lemma {:induction false} WalkFrom(msgs: seq<RawMessage>, normalize: Normalizer, i: nat)
    requires i <= |msgs|
    requires forall j :: 0 <= j < i ==> Readable(msgs[j])
    ensures var rest := Walk(msgs[i..], normalize, RowsUpTo(msgs, i, normalize));
      Walk(msgs, normalize, []) == Pass(rest.outcome, DeletesOf(msgs, i) + rest.events)
  {
    if i == 0 {
      assert msgs[0..] == msgs;
    } else {
      WalkFrom(msgs, normalize, i - 1);
      WalkStep(msgs, normalize, i - 1, RowsUpTo(msgs, i - 1, normalize));
      var rest := Walk(msgs[i..], normalize, RowsUpTo(msgs, i, normalize));
      var d := Delete(msgs[i - 1].receipt.value);
      assert DeletesOf(msgs, i) == DeletesOf(msgs, i - 1) + [d];
      Regroup(DeletesOf(msgs, i - 1), [d], rest.events);
    }
  }

  /** Concatenation of traces regroups freely. */
  lemma Regroup(a: seq<Event>, b: seq<Event>, c: seq<Event>)
    ensures a + (b + c) == (a + b) + c
  {
  }

  /** One step of the walk, from position i of a batch. */
  lemma WalkStep(msgs: seq<RawMessage>, normalize: Normalizer, i: nat, buffer: seq<Row>)
    requires i < |msgs| && Readable(msgs[i])
    ensures var rest := Walk(msgs[i + 1..], normalize, buffer + RowsOf(msgs[i], normalize));
      Walk(msgs[i..], normalize, buffer) == Pass(rest.outcome, [Delete(msgs[i].receipt.value)] + rest.events)
  {
    assert msgs[i..][0] == msgs[i];
    assert msgs[i..][1..] == msgs[i + 1..];
  }

  /** The trace of the first n passes: each begins with its poll. */
  function Passes(polls: seq<Option<seq<RawMessage>>>, passes: seq<Normalizer>, n: nat): seq<Event>
    requires n <= |polls| == |passes|
  {
    if n == 0 then []
    else Passes(polls, passes, n - 1) + [Receive] + PassOf(polls[n - 1], passes[n - 1]).events
  }

  /** The end of a batch read to the end: after one delete per message, in
      order, the flush adds at most one insert, non-empty and last; with
      distinct receipt handles every message is deleted exactly once. */
  lemma FlushAfterDeletes(msgs: seq<RawMessage>, deletes: seq<Event>, buffer: seq<Row>)
    requires DeletedInOrder(msgs, deletes, |msgs|)
    ensures var trace := deletes + Flush(buffer);
      && (forall j :: 0 <= j < |msgs| ==> trace[j] == Delete(msgs[j].receipt.value))
      && trace[|msgs|..] == Flush(buffer)
      && (forall j :: 0 <= j < |trace| && trace[j].Insert? ==> |trace[j].rows| > 0 && j == |trace| - 1)
      && (DistinctReceipts(msgs) ==>
            forall j :: 0 <= j < |msgs| ==> Occurrences(trace, Delete(msgs[j].receipt.value)) == 1)
  {
    var trace := deletes + Flush(buffer);
    assert trace[|msgs|..] == Flush(buffer);
    if DistinctReceipts(msgs) {
      forall j | 0 <= j < |msgs|
        ensures Occurrences(trace, Delete(msgs[j].receipt.value)) == 1
      {
        assert trace[j] == Delete(msgs[j].receipt.value);
        SingleOccurrence(trace, j);
      }
    }
  }

  /** Rows keep arrival order: the rows of two consecutive runs of messages
      are those of the first run followed by those of the second. */
  lemma RowsAppend(a: seq<RawMessage>, b: seq<RawMessage>, normalize: Normalizer)
    ensures Rows(a + b, normalize) == Rows(a, normalize) + Rows(b, normalize)
  {
    RowsUpToAppend(a, b, |b|, normalize);
  }

  /** The first |a| + k messages of `a + b` yield the rows of `a` followed by
      those of the first k messages of `b`. */
  lemma {:induction false} RowsUpToAppend(a: seq<RawMessage>, b: seq<RawMessage>, k: nat, normalize: Normalizer)
    requires k <= |b|
    ensures RowsUpTo(a + b, |a| + k, normalize) == Rows(a, normalize) + RowsUpTo(b, k, normalize)
    decreases k
  {
    if k == 0 {
      RowsUpToAgree(a + b, a, |a|, normalize);
    } else {
      RowsUpToAppend(a, b, k - 1, normalize);
      AppendStep(a + b, |a| + k, b, k, Rows(a, normalize), normalize);
    }
  }

  /** One more message on each side: when the n-th message of `s` is the
      k-th of `t`, a common front persists. */
  lemma AppendStep(s: seq<RawMessage>, n: nat, t: seq<RawMessage>, k: nat, front: seq<Row>, normalize: Normalizer)
    requires 0 < n <= |s| && 0 < k <= |t| && s[n - 1] == t[k - 1]
    requires RowsUpTo(s, n - 1, normalize) == front + RowsUpTo(t, k - 1, normalize)
    ensures RowsUpTo(s, n, normalize) == front + RowsUpTo(t, k, normalize)
  {
    var done, next := RowsUpTo(t, k - 1, normalize), RowsOf(t[k - 1], normalize);
    assert (front + done) + next == front + (done + next);
  }

  /** The rows of the first n messages depend on those messages only. */
  lemma {:induction false} RowsUpToAgree(s: seq<RawMessage>, t: seq<RawMessage>, n: nat, normalize: Normalizer)
    requires n <= |s| && n <= |t|
    requires forall j :: 0 <= j < n ==> s[j] == t[j]
    ensures RowsUpTo(s, n, normalize) == RowsUpTo(t, n, normalize)
    decreases n
  {
    if n > 0 {
      RowsUpToAgree(s, t, n - 1, normalize);
      assert s[n - 1] == t[n - 1];
    }
  }

  /** A message whose body normalizes. */
  predicate Accepted(m: RawMessage, normalize: Normalizer) {
    m.body.Some? && normalize(m.body.value).Success?
  }

  /** The rows of a batch are exactly the rows of its accepted messages:
      every accepted message has its row, and every row comes from one. */
  lemma RowsAreTheAccepted(msgs: seq<RawMessage>, normalize: Normalizer)
    ensures forall r :: r in Rows(msgs, normalize) <==>
      exists j :: && 0 <= j < |msgs| && Accepted(msgs[j], normalize)
                  && r == normalize(msgs[j].body.value).value
  {
    AcceptedUpTo(msgs, |msgs|, normalize);
  }

  /** The same, for the first n messages. */
  lemma {:induction false} AcceptedUpTo(msgs: seq<RawMessage>, n: nat, normalize: Normalizer)
    requires n <= |msgs|
    ensures forall r :: r in RowsUpTo(msgs, n, normalize) <==>
      exists j :: && 0 <= j < n && Accepted(msgs[j], normalize)
                  && r == normalize(msgs[j].body.value).value
    decreases n
  {
    if n > 0 {
      AcceptedUpTo(msgs, n - 1, normalize);
      forall r | r in RowsUpTo(msgs, n, normalize)
        ensures exists j :: && 0 <= j < n && Accepted(msgs[j], normalize)
                            && r == normalize(msgs[j].body.value).value
      {
        if r !in RowsUpTo(msgs, n - 1, normalize) {
          assert r in RowsOf(msgs[n - 1], normalize);
        }
      }
    }
  }

  /** Every insert is non-empty and is the last event of its pass. */
  predicate InsertsClosePasses(trace: seq<Event>) {
    forall k :: 0 <= k < |trace| && trace[k].Insert? ==>
      && |trace[k].rows| > 0
      && (k == |trace| - 1 || trace[k + 1] == Receive)
  }

  /** Every insert carries the rows of one of the first n batches, and
      nothing else. */
  predicate InsertsAreBatches(trace: seq<Event>, polls: seq<Option<seq<RawMessage>>>,
                              passes: seq<Normalizer>, n: nat)
    requires n <= |polls| == |passes|
  {
    forall k :: 0 <= k < |trace| && trace[k].Insert? ==>
      exists b :: && 0 <= b < n && polls[b].Some?
                  && trace[k].rows == Rows(polls[b].value, passes[b])
  }

  /** Appending one pass, whose only possible insert is its last event and
      carries the rows of batch n, keeps both trace properties. */
  lemma AppendPass(before: seq<Event>, t: seq<Event>, polls: seq<Option<seq<RawMessage>>>,
                   passes: seq<Normalizer>, n: nat)
    requires n < |polls| == |passes|
    requires InsertsClosePasses(before)
    requires InsertsAreBatches(before, polls, passes, n)
    requires forall j :: 0 <= j < |t| && t[j].Insert? ==>
      && |t[j].rows| > 0 && j == |t| - 1 && polls[n].Some?
      && t[j].rows == Rows(polls[n].value, passes[n])
    ensures InsertsClosePasses(before + [Receive] + t)
    ensures InsertsAreBatches(before + [Receive] + t, polls, passes, n + 1)
  {
    var trace := before + [Receive] + t;
    assert trace[|before|] == Receive;
    forall k | 0 <= k < |trace| && trace[k].Insert?
      ensures |trace[k].rows| > 0 && (k == |trace| - 1 || trace[k + 1] == Receive)
      ensures exists b :: && 0 <= b < n + 1 && polls[b].Some?
                          && trace[k].rows == Rows(polls[b].value, passes[b])
    {
      if k >= |before| + 1 {
        assert t[k - |before| - 1] == trace[k];
      } else {
        assert before[k] == trace[k];
      }
    }
  }

  /** The inserts of one pass: at most one, non-empty, last, and carrying
      exactly the rows of the batch that was polled. */
  lemma PassInserts(response: Option<seq<RawMessage>>, normalize: Normalizer)
    ensures var t := PassOf(response, normalize).events;
      forall j :: 0 <= j < |t| && t[j].Insert? ==>
        && |t[j].rows| > 0 && j == |t| - 1 && response.Some?
        && t[j].rows == Rows(response.value, normalize)
  {
    if response.Some? {
      PassReference(response.value, normalize);
      DeletesInOrder(response.value, FirstUnreadable(response.value));
    }
  }

  /** The traces of any number of passes keep both insert properties. */
  lemma {:induction false} PassesInserts(polls: seq<Option<seq<RawMessage>>>, passes: seq<Normalizer>, n: nat)
    requires n <= |polls| == |passes|
    ensures InsertsClosePasses(Passes(polls, passes, n))
    ensures InsertsAreBatches(Passes(polls, passes, n), polls, passes, n)
  {
    if n > 0 {
      PassesInserts(polls, passes, n - 1);
      PassInserts(polls[n - 1], passes[n - 1]);
      AppendPass(Passes(polls, passes, n - 1), PassOf(polls[n - 1], passes[n - 1]).events, polls, passes, n - 1);
    }
  }

  /** Several passes of the loop over scripted `receive_message` responses.
      Pass b normalizes with `passes[b]`: in the program that is
      `LoginNormalizer(HASH_SECRET_SALT, date, sha256)` for the date the
      clock shows during that pass. The loop leaves after the
      first empty poll or the first crash; it is still running when the
      responses run out. */
  method Run(polls: seq<Option<seq<RawMessage>>>, passes: seq<Normalizer>)
    returns (outcome: Outcome, trace: seq<Event>, batches: nat)
    requires |passes| == |polls|
    ensures batches <= |polls|
    ensures outcome == Continue ==> batches == |polls|
    ensures outcome != Continue ==> 0 < batches
    // only a batch read to the end lets the loop go round again
    ensures forall b :: 0 <= b < batches && (b < batches - 1 || outcome == Continue) ==> polls[b].Some?
    // the empty poll is the last thing that happens
    ensures outcome == Stopped <==> 0 < batches && polls[batches - 1].None?
    ensures outcome == Stopped ==> 0 < |trace| && trace[|trace| - 1] == Receive
    // every insert is non-empty and closes its batch
    ensures InsertsClosePasses(trace)
    // the buffer starts empty on every pass: an insert carries the rows of
    // one batch and nothing else
    ensures InsertsAreBatches(trace, polls, passes, batches)
    // the whole run, pass by pass: every pass but the last went round again,
    // the last one decides the outcome
    ensures trace == Passes(polls, passes, batches)
    ensures forall b :: 0 <= b < batches - 1 ==> PassOf(polls[b], passes[b]).outcome == Continue
    ensures 0 < batches ==> outcome == PassOf(polls[batches - 1], passes[batches - 1]).outcome
    // and the reference run over all the responses says the same
    ensures Pass(outcome, trace) == RunTo(polls, passes, |polls|)
  {
    outcome, trace, batches := RunPasses(polls, passes);
    RunToPasses(polls, passes, batches);
    if outcome != Continue {
      RunToStays(polls, passes, batches, |polls|);
    }
    RunShape(polls, passes, outcome, batches);
  }

  /** The loop itself: pass after pass until one does not end `Continue`
      or the responses run out. */
  method RunPasses(polls: seq<Option<seq<RawMessage>>>, passes: seq<Normalizer>)
    returns (outcome: Outcome, trace: seq<Event>, batches: nat)
    requires |passes| == |polls|
    ensures batches <= |polls|
    ensures outcome == Continue ==> batches == |polls|
    ensures 0 < batches ==> RunTo(polls, passes, batches - 1).outcome == Continue
    ensures Pass(outcome, trace) == RunTo(polls, passes, batches)
  {
    outcome := Continue;
    trace := [];
    batches := 0;
    while batches < |polls| && outcome == Continue
      invariant batches <= |polls|
      invariant 0 < batches ==> RunTo(polls, passes, batches - 1).outcome == Continue
      invariant Pass(outcome, trace) == RunTo(polls, passes, batches)
    {
      var o, buffer, t := Iterate(polls[batches], passes[batches]);
      trace := trace + [Receive] + t;
      batches := batches + 1;
      outcome := o;
    }
  }

  /** The loop after the first n responses, by the reference: a pass runs
      only if the one before it went round again, and once the loop has
      left, later responses change nothing. */
  function RunTo(polls: seq<Option<seq<RawMessage>>>, passes: seq<Normalizer>, n: nat): Pass
    requires n <= |polls| == |passes|
  {
    if n == 0 then Pass(Continue, [])
    else
      var before := RunTo(polls, passes, n - 1);
      if before.outcome != Continue then before
      else
        var p := PassOf(polls[n - 1], passes[n - 1]);
        Pass(p.outcome, before.events + [Receive] + p.events)
  }

  /** Once the loop has left, further responses change nothing. */
  lemma {:induction false} RunToStays(polls: seq<Option<seq<RawMessage>>>, passes: seq<Normalizer>, n: nat, m: nat)
    requires n <= m <= |polls| == |passes|
    requires RunTo(polls, passes, n).outcome != Continue
    ensures RunTo(polls, passes, m) == RunTo(polls, passes, n)
    decreases m - n
  {
    if m > n {
      RunToStays(polls, passes, n, m - 1);
    }
  }

  /** A run that reached its n-th pass is the first n passes in order;
      each of them but the last went round again, and the last one decides
      the outcome. */
  lemma {:induction false} RunToPasses(polls: seq<Option<seq<RawMessage>>>, passes: seq<Normalizer>, n: nat)
    requires n <= |polls| == |passes|
    requires 0 < n ==> RunTo(polls, passes, n - 1).outcome == Continue
    ensures RunTo(polls, passes, n).events == Passes(polls, passes, n)
    ensures forall b :: 0 <= b < n - 1 ==> PassOf(polls[b], passes[b]).outcome == Continue
    ensures RunTo(polls, passes, n).outcome
              == if n == 0 then Continue else PassOf(polls[n - 1], passes[n - 1]).outcome
  {
    if n > 0 {
      var before := RunTo(polls, passes, n - 1);
      var p := PassOf(polls[n - 1], passes[n - 1]);
      assert RunTo(polls, passes, n) == Pass(p.outcome, before.events + [Receive] + p.events);
      if n > 1 {
        assert RunTo(polls, passes, n - 2).outcome == Continue;
        RunToPasses(polls, passes, n - 1);
        assert PassOf(polls[n - 2], passes[n - 2]).outcome == Continue;
      }
    }
  }

  /** What a run that followed the reference pass by pass looks like: it
      went round again only after complete batches, it stops exactly at an
      empty poll, which is then its last event, and its inserts close their
      passes and carry one batch's rows each. */
  lemma RunShape(polls: seq<Option<seq<RawMessage>>>, passes: seq<Normalizer>, outcome: Outcome, batches: nat)
    requires batches <= |polls| == |passes|
    requires batches == 0 ==> outcome == Continue
    requires forall b :: 0 <= b < batches - 1 ==> PassOf(polls[b], passes[b]).outcome == Continue
    requires 0 < batches ==> outcome == PassOf(polls[batches - 1], passes[batches - 1]).outcome
    ensures outcome != Continue ==> 0 < batches
    ensures forall b :: 0 <= b < batches && (b < batches - 1 || outcome == Continue) ==> polls[b].Some?
    ensures outcome == Stopped <==> 0 < batches && polls[batches - 1].None?
    ensures var trace := Passes(polls, passes, batches);
      outcome == Stopped ==> 0 < |trace| && trace[|trace| - 1] == Receive
    ensures InsertsClosePasses(Passes(polls, passes, batches))
    ensures InsertsAreBatches(Passes(polls, passes, batches), polls, passes, batches)
  {
    PassesInserts(polls, passes, batches);
    forall b | 0 <= b < batches
      ensures PassOf(polls[b], passes[b]).outcome == Continue ==> polls[b].Some?
      ensures polls[b].None? ==> PassOf(polls[b], passes[b]) == Pass(Stopped, [])
    {
    }
  }

  /** A rejected message between two accepted ones drops out, and the
      other two keep their order. */
  lemma RejectedMessageDropsOut(m1: RawMessage, m2: RawMessage, m3: RawMessage, normalize: Normalizer)
    requires Accepted(m1, normalize) && !Accepted(m2, normalize) && Accepted(m3, normalize)
    ensures Rows([m1, m2, m3], normalize)
         == [normalize(m1.body.value).value, normalize(m3.body.value).value]
  {
    var msgs := [m1, m2, m3];
    assert RowsUpTo(msgs, 2, normalize) == RowsOf(m1, normalize);
  }
}
