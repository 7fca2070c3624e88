/** The Express catalog store: one data file holding a JSON array of property
    records, read on every request. GET answers the stored array; POST reads
    it, stamps the request body with an id taken from the clock, appends it and
    writes the whole array back. The file system's failures and the clock are
    inputs of the model. */
module Server {
  import opened JsValues

  /** What reading the data file yields: nothing (an empty file), a JSON array
      of records, or text that `JSON.parse` rejects. */
  datatype Content = Empty | Records(records: seq<Record>) | Malformed

  /** The data file: it cannot be read, or it holds some text. */
  datatype FileState = Unreadable | Text(content: Content)

  datatype Body = List(items: seq<Record>) | One(item: Record) | Message(text: string)

  /** The response sent, or an exception that nothing catches, which ends the
      process without a response. */
  datatype Reply = Reply(status: nat, body: Body) | Crash

  const ReadError: string := "Error reading file"
  const WriteError: string := "Error writing file"

  // JSON serialisation of records.

  /** A record as `JSON.stringify` can write it: no property is `undefined`
      and none is `NaN`. Records parsed from the data file are of this kind. */
  predicate IsJson(r: Record) {
    forall k | k in r :: r[k] != Undefined && r[k] != NaN
  }

  /** The record that `JSON.stringify` followed by `JSON.parse` gives back:
      properties holding `undefined` are dropped, `NaN` becomes `null`. */
  function JsonRecord(r: Record): (j: Record)
    ensures IsJson(j)
    ensures j.Keys <= r.Keys
    ensures forall k | k in r && TypeofNumber(r[k]) && r[k] != NaN :: k in j && j[k] == r[k]
    ensures IsJson(r) ==> j == r
  {
    map k | k in r && r[k] != Undefined :: if r[k] == NaN then Null else r[k]
  }

  /** Writing and reading back loses nothing further: a record that has
      been through JSON once comes through again unchanged. */
  lemma JsonRecordIdempotent(r: Record)
    ensures JsonRecord(JsonRecord(r)) == JsonRecord(r)
  {
  }

  function JsonRecords(rs: seq<Record>): (js: seq<Record>)
    ensures |js| == |rs| && forall i | 0 <= i < |rs| :: js[i] == JsonRecord(rs[i])
  {
    seq(|rs|, i requires 0 <= i < |rs| => JsonRecord(rs[i]))
  }

  predicate AllJson(rs: seq<Record>) {
    forall i | 0 <= i < |rs| :: IsJson(rs[i])
  }

  /** The file holds what a JSON writer leaves there. */
  predicate WellFormed(f: FileState) {
    f.Text? && f.content.Records? ==> AllJson(f.content.records)
  }

  /** The array `JSON.parse(data || "[]")` yields, when the file can be read
      and parsed. */
  function Stored(f: FileState): (r: Option<seq<Record>>)
    ensures r.Some? <==> f.Text? && !f.content.Malformed?
    ensures f == Text(Empty) ==> r == Some([])
    ensures f.Text? && f.content.Records? ==> r == Some(f.content.records)
  {
    match f
    case Unreadable => None
    case Text(Empty) => Some([])
    case Text(Records(rs)) => Some(rs)
    case Text(Malformed) => None
  }

  /** The GET handler: 500 when the file cannot be read, the stored array
      (empty for an empty file) otherwise; a parse error is not caught. */
  function GetReply(f: FileState): (r: Reply)
    ensures f.Unreadable? <==> r == Reply(500, Message(ReadError))
    ensures f == Text(Malformed) <==> r.Crash?
    ensures Stored(f).Some? <==> r.Reply? && r.status == 200
    ensures Stored(f).Some? ==> r.body == List(Stored(f).value)
  {
    match f
    case Unreadable => Reply(500, Message(ReadError))
    case Text(Malformed) => Crash
    case Text(_) => Reply(200, List(Stored(f).value))
  }

  datatype PostResult = PostResult(reply: Reply, file: FileState)

  /** The POST handler as a function of the file before it: `now` is
      `Date.now()` and `writeFails` says whether `fs.writeFile` reports an
      error. */
  function PostStep(f: FileState, body: Record, now: nat, writeFails: bool): PostResult {
    match f
    case Unreadable => PostResult(Reply(500, Message(ReadError)), f)
    case Text(Malformed) => PostResult(Crash, f)
    case Text(_) =>
      var newProperty := body["id" := Num(now)];
      var properties := Stored(f).value + [newProperty];
      if writeFails then PostResult(Reply(500, Message(WriteError)), f)
      else PostResult(Reply(201, One(JsonRecord(newProperty))), Text(Records(JsonRecords(properties))))
  }

  /** The record a successful POST stores and answers: the body with `id` set
      to the clock, as it comes back from JSON. */
  function Stamped(body: Record, now: nat): (r: Record)
    ensures r == JsonRecord(body["id" := Num(now)])
    ensures "id" in r && r["id"] == Num(now)
  {
    JsonRecord(body["id" := Num(now)])
  }

  class CatalogServer {
    var file: FileState

    predicate Valid()
      reads this
    {
      WellFormed(file)
    }

    constructor (initial: FileState)
      requires WellFormed(initial)
      ensures Valid() && file == initial
    {
      file := initial;
    }

    /** `GET /api/properties`. */
    method Get() returns (reply: Reply)
      ensures reply == GetReply(file)
    {
      match file
      case Unreadable =>
        reply := Reply(500, Message(ReadError));
      case Text(content) =>
        if content.Malformed? {
          reply := Crash;
        } else {
          var data := if content.Empty? then [] else content.records;
          reply := Reply(200, List(data));
        }
    }

    /** `POST /api/properties` with request body `body`. */
    method Post(body: Record, now: nat, writeFails: bool) returns (reply: Reply)
      requires Valid()
      modifies this
      ensures Valid()
      ensures PostResult(reply, file) == PostStep(old(file), body, now, writeFails)
    {
      match file
      case Unreadable =>
        reply := Reply(500, Message(ReadError));
      case Text(content) =>
        if content.Malformed? {
          reply := Crash;
          return;
        }
        var properties := if content.Empty? then [] else content.records;
        var newProperty := body;
        newProperty := newProperty["id" := Num(now)];
        properties := properties + [newProperty];
        if writeFails {
          reply := Reply(500, Message(WriteError));
        } else {
          file := Text(Records(JsonRecords(properties)));
          reply := Reply(201, One(JsonRecord(newProperty)));
        }
    }
  }

  /** A POST that does not succeed leaves the file as it was: a read error is
      answered with 500 "Error reading file", a write error with 500 "Error
      writing file", and unparsable content ends the process. */
  lemma FailedPostLeavesFileUnchanged(f: FileState, body: Record, now: nat, writeFails: bool)
    ensures var r := PostStep(f, body, now, writeFails);
      && (r.reply.Reply? && r.reply.status == 201 <==> Stored(f).Some? && !writeFails)
      && (f.Unreadable? ==> r.reply == Reply(500, Message(ReadError)))
      && (Stored(f).Some? && writeFails ==> r.reply == Reply(500, Message(WriteError)))
      && (f == Text(Malformed) ==> r.reply.Crash?)
      && (!(r.reply.Reply? && r.reply.status == 201) ==> r.file == f)
  {
  }

  /** A successful POST on a well-formed file appends exactly the stamped
      record: earlier records keep their contents and order, the array grows
      by one, and the response carries the stored record. */
  lemma {:induction false} PostAppendsStampedRecord(f: FileState, body: Record, now: nat)
    requires WellFormed(f) && Stored(f).Some?
    ensures var r := PostStep(f, body, now, false);
      && r.reply == Reply(201, One(Stamped(body, now)))
      && Stored(r.file) == Some(Stored(f).value + [Stamped(body, now)])
      && WellFormed(r.file)
  {
    var old_ := Stored(f).value;
    var props := old_ + [body["id" := Num(now)]];
    var js := JsonRecords(props);
    forall i | 0 <= i < |old_| ensures js[i] == old_[i] {
      assert props[i] == old_[i];
      assert IsJson(old_[i]);
    }
    assert js == old_ + [Stamped(body, now)];
  }

  /** GET after a successful POST answers the old array followed by the new
      record. */
  lemma GetAfterPost(f: FileState, body: Record, now: nat)
    requires WellFormed(f) && Stored(f).Some?
    ensures GetReply(PostStep(f, body, now, false).file)
            == Reply(200, List(Stored(f).value + [Stamped(body, now)]))
  {
    PostAppendsStampedRecord(f, body, now);
  }

  /** Successful POSTs one after another, the i-th at clock `clocks[i]`. */
  function PostAll(f: FileState, bodies: seq<Record>, clocks: seq<nat>): FileState
    requires |bodies| == |clocks|
  {
    if bodies == [] then f
    else PostStep(PostAll(f, bodies[..|bodies| - 1], clocks[..|clocks| - 1]),
                  bodies[|bodies| - 1], clocks[|clocks| - 1], false).file
  }

  /** The records that successful POSTs of `bodies` at `clocks` store, in
      request order. */
  function Appended(bodies: seq<Record>, clocks: seq<nat>): (rs: seq<Record>)
    requires |bodies| == |clocks|
    ensures |rs| == |bodies|
    ensures forall i | 0 <= i < |rs| :: rs[i] == Stamped(bodies[i], clocks[i])
  {
    seq(|bodies|, i requires 0 <= i < |bodies| => Stamped(bodies[i], clocks[i]))
  }

  lemma AppendedSnoc(bodies: seq<Record>, clocks: seq<nat>)
    requires |bodies| == |clocks| > 0
    ensures var n := |bodies| - 1;
      Appended(bodies, clocks) == Appended(bodies[..n], clocks[..n]) + [Stamped(bodies[n], clocks[n])]
  {
  }

  /** After successful POSTs the array is the old one followed by one record
      per request, in request order, whose `id` is that request's clock. */
  lemma {:induction false} PostAllAppendsInOrder(f: FileState, bodies: seq<Record>, clocks: seq<nat>)
    requires |bodies| == |clocks| && WellFormed(f) && Stored(f).Some?
    ensures WellFormed(PostAll(f, bodies, clocks))
    ensures Stored(PostAll(f, bodies, clocks)) == Some(Stored(f).value + Appended(bodies, clocks))
  {
    if bodies == [] {
      assert Stored(f).value + Appended(bodies, clocks) == Stored(f).value;
    } else {
      var n := |bodies| - 1;
      var g := PostAll(f, bodies[..n], clocks[..n]);
      PostAllAppendsInOrder(f, bodies[..n], clocks[..n]);
      PostAppendsStampedRecord(g, bodies[n], clocks[n]);
      AppendedSnoc(bodies, clocks);
      assert Stored(f).value + Appended(bodies[..n], clocks[..n]) + [Stamped(bodies[n], clocks[n])]
          == Stored(f).value + (Appended(bodies[..n], clocks[..n]) + [Stamped(bodies[n], clocks[n])]);
    }
  }

  /** The ids of the appended records are the clocks: two of them coincide
      exactly when the clock read the same value for both requests, so ids
      are unique only as long as the clock never repeats. */
  lemma PostedIdsAreDistinctIffClocksAre(bodies: seq<Record>, clocks: seq<nat>)
    requires |bodies| == |clocks|
    ensures var rs := Appended(bodies, clocks);
      forall i, j | 0 <= i < j < |rs| :: Get(rs[i], "id") == Get(rs[j], "id") <==> clocks[i] == clocks[j]
  {
  }
}
