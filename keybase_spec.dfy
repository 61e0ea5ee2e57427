/** The behaviour of one Keybase connection as a pure state machine: the state is
    the in-memory map, the closed flag and what the backing file holds; every
    operation of the connection interface is a step that yields a new state and a
    reply. The class in module KeybaseConnection is proved against `Step`. */
module KeybaseSpec {
  import opened KeybaseValues

  /** What the backing file holds, as seen through the JSON codec. */
  datatype Content =
    | Absent                               // there is no file at the path
    | Blank                                // the text decodes to null (an empty file)
    | Json(snapshot: map<string, Value>)   // a well-formed database object
    | Malformed                            // text that is not a database object

  /** The connection's state: the database map, the closed flag, the file. */
  datatype State = State(data: map<string, Value>, closed: bool, stored: Content)

  /** The operations of the connection interface. `Save` carries the outcome of
      the file write, which the environment decides. */
  datatype Op =
    | Get(key: string)
    | GetAs(key: string, kind: Kind)
    | Set(key: string, value: Value)
    | Remove(key: string)
    | Exists(key: string)
    | Save(writeOk: bool)
    | Close
    | IsClosed

  /** What an operation gives back: nothing (a void method), a value, a boolean,
      or the exception it throws. */
  datatype Reply = Done | Got(value: Value) | Answer(flag: bool) | Failed(error: Error)

  /** The connection's lasting invariant: a closed connection holds no entries. */
  predicate Inv(s: State)
  {
    s.closed ==> s.data == map[]
  }

  /** The JSON encoder can write the map: it holds no NaN or infinite number. */
  predicate Encodable(m: map<string, Value>)
  {
    forall k :: k in m ==> !NonFinite(m[k])
  }

  /** `HashMap.get`: the stored value, or null when the key is absent. */
  function Lookup(m: map<string, Value>, key: string): Value
  {
    if key in m then m[key] else Null
  }

  /** The entry for a key, distinguishing an absent key from a stored null. */
  function Entry(m: map<string, Value>, key: string): Option<Value>
  {
    if key in m then Some(m[key]) else None
  }

  /** The reply of an operation refused by the lifecycle gate. */
  function Refused(s: State): (State, Reply)
  {
    (s, Failed(ConnectionClosed))
  }

  /** One operation on the connection. Every operation but `IsClosed` and `Close`
      first checks the closed flag and throws ConnectionClosed when it is set. */
  function Step(s: State, op: Op): (r: (State, Reply))
    // only Close sets the flag, and nothing clears it
    ensures r.0.closed == (s.closed || op.Close?)
    ensures Inv(s) ==> Inv(r.0)
    // only Save touches the file
    ensures !op.Save? ==> r.0.stored == s.stored
    // reads, Save and the flag query leave the map alone
    ensures !(op.Set? || op.Remove? || op.Close?) ==> r.0.data == s.data
    // once closed, every operation but IsClosed fails and changes nothing
    ensures s.closed && !op.IsClosed? ==> r.0 == s && r.1.Failed?
    // IsClosed never fails
    ensures op.IsClosed? ==> r == (s, Answer(s.closed))
  {
    match op
    case Get(k) =>
      if s.closed then Refused(s) else (s, Got(Lookup(s.data, k)))
    case GetAs(k, kind) =>
      if s.closed then Refused(s)
      else (s, match Cast(Lookup(s.data, k), kind)
               case Success(v) => Got(v)
               case Failure(e) => Failed(e))
    case Set(k, v) =>
      if s.closed then Refused(s) else (s.(data := s.data[k := v]), Done)
    case Remove(k) =>
      if s.closed then Refused(s) else (s.(data := s.data - {k}), Done)
    case Exists(k) =>
      if s.closed then Refused(s) else (s, Answer(k in s.data))
    case Save(ok) =>
      if s.closed then Refused(s)
      else if !Encodable(s.data) then (s, Failed(IllegalArgument))
      else if ok then (s.(stored := Json(s.data)), Done)
      else (s, Failed(IOFailure))
    case Close =>
      if s.closed then (s, Failed(ConnectionAlreadyClosed))
      else (s.(data := map[], closed := true), Done)
    case IsClosed =>
      (s, Answer(s.closed))
  }

  /** A sequence of operations, applied left to right, with the reply of each. */
  function Run(s: State, ops: seq<Op>): (r: (State, seq<Reply>))
    ensures |r.1| == |ops|
    ensures Inv(s) ==> Inv(r.0)
    ensures r.0.closed ==> s.closed || Op.Close in ops
    decreases |ops|
  {
    if ops == [] then (s, [])
    else
      var before := Run(s, ops[..|ops| - 1]);
      var after := Step(before.0, ops[|ops| - 1]);
      (after.0, before.1 + [after.1])
  }

  /** Converts a method's result into the reply it stands for. */
  function AsReply<T>(r: Result<T>, embed: T -> Reply): Reply
  {
    match r
    case Success(x) => embed(x)
    case Failure(e) => Failed(e)
  }

  /** Bootstrap (`Keybase.createConnection`): decode the file into the map. A
      missing file fails while reading it, text that is not a database object fails
      while decoding it, and text that decodes to null gives an empty map. */
  function Load(c: Content): Result<map<string, Value>>
  {
    match c
    case Absent => Failure(IOFailure)
    case Malformed => Failure(JsonSyntax)
    case Blank => Success(map[])
    case Json(m) => Success(m)
  }

  /** The state of a connection freshly created on a file holding `c`. */
  function Open(c: Content): (r: Result<State>)
    ensures r.Success? <==> c.Blank? || c.Json?
    ensures r.Success? ==> !r.value.closed && Inv(r.value) && r.value.stored == c
    ensures c.Json? ==> r.Success? && r.value.data == c.snapshot
    ensures c.Blank? ==> r.Success? && r.value.data == map[]
  {
    match Load(c)
    case Success(m) => Success(State(m, false, c))
    case Failure(e) => Failure(e)
  }

  // ---------------------------------------------------------------------------
  // One and two operations

  /** `set` is an upsert: the key maps to the new value afterwards, whether or not
      it was present before, no other key changes, and there is one entry per key. */
  lemma SetIsUpsert(s: State, k: string, v: Value)
    requires !s.closed
    ensures var s' := Step(s, Set(k, v)).0;
      && s'.data.Keys == s.data.Keys + {k}
      && s'.data[k] == v
      && (forall k' :: k' != k ==> Entry(s'.data, k') == Entry(s.data, k'))
      && |s'.data| == (if k in s.data then |s.data| else |s.data| + 1)
  {
  }

  /** Setting a key twice leaves only the second value: no multiple values. */
  lemma SetTwiceKeepsLast(s: State, k: string, v1: Value, v2: Value)
    requires !s.closed
    ensures Step(Step(s, Set(k, v1)).0, Set(k, v2)) == Step(s, Set(k, v2))
    ensures Step(Step(Step(s, Set(k, v1)).0, Set(k, v2)).0, Exists(k)).1 == Answer(true)
  {
    assert s.data[k := v1][k := v2] == s.data[k := v2];
  }

  /** `remove` takes out the key and nothing else; for an absent key it is a
      no-op, not an error; and removing twice is the same as removing once. */
  lemma RemoveDeletesOnly(s: State, k: string)
    requires !s.closed
    ensures var s' := Step(s, Remove(k));
      && s'.1 == Done
      && s'.0.data.Keys == s.data.Keys - {k}
      && (forall k' :: k' != k ==> Entry(s'.0.data, k') == Entry(s.data, k'))
      && (k !in s.data ==> s'.0 == s)
      && Step(s'.0, Remove(k)) == s'
  {
    if k !in s.data {
      assert s.data - {k} == s.data;
    }
    assert s.data - {k} - {k} == s.data - {k};
  }

  /** On an open connection `get` answers null exactly when the key is absent or
      holds a stored null, so it cannot tell the two apart; `exists` can, since it
      answers whether there is an entry at all. Neither changes the state. */
  lemma ReadsReportEntries(s: State, k: string)
    requires !s.closed
    ensures Step(s, Get(k)).1.Got?
    ensures Step(s, Get(k)).1 == Got(Null) <==> Entry(s.data, k) == None || Entry(s.data, k) == Some(Null)
    ensures Step(s, Exists(k)).1 == Answer(Entry(s.data, k).Some?)
    ensures Step(s, Get(k)).0 == s && Step(s, Exists(k)).0 == s
  {
  }

  /** A typed getter returns the value set only when its runtime type matches;
      otherwise it throws a ClassCastException, or a NullPointerException when a
      null is unboxed into a primitive. */
  lemma TypedRoundTrip(s: State, k: string, v: Value, kind: Kind)
    requires !s.closed
    ensures var got := Step(Step(s, Set(k, v)).0, GetAs(k, kind)).1;
      && (KindOf(v) == Some(kind) ==> got == Got(v))
      && (v != Null && KindOf(v) != Some(kind) ==> got == Failed(ClassCast))
      && (v == Null ==> got == if kind == StringKind then Got(Null) else Failed(NullPointer))
  {
  }

  /** A typed getter on an absent key: the String getter returns null, every
      primitive getter throws a NullPointerException while unboxing. */
  lemma TypedGetAbsentKey(s: State, k: string, kind: Kind)
    requires !s.closed && k !in s.data
    ensures Step(s, GetAs(k, kind)).1 == if kind == StringKind then Got(Null) else Failed(NullPointer)
  {
  }

  /** `save` overwrites the file with the whole current map, whatever the file held
      before, and leaves the map and the flag alone. A map holding a NaN or infinite
      number cannot be encoded, so nothing is written; a failed write changes
      nothing either. */
  lemma SaveOverwritesFile(s: State, ok: bool)
    requires !s.closed
    ensures var s' := Step(s, Save(ok));
      && s'.0.data == s.data && s'.0.closed == s.closed
      && (Encodable(s.data) && ok ==>
            s'.1 == Done && s'.0.stored == Json(s.data) && Load(s'.0.stored) == Success(s.data))
      && (!Encodable(s.data) ==> s' == (s, Failed(IllegalArgument)))
      && (Encodable(s.data) && !ok ==> s' == (s, Failed(IOFailure)))
  {
  }

  /** A double NaN (bits 7FF8000000000000) makes `save` fail before anything is
      written, while 1.0 (bits 3FF0000000000000) is saved. */
  lemma SaveRejectsNaN(s: State, k: string)
    requires !s.closed && Encodable(s.data)
    ensures Step(Step(s, Set(k, Double(0x7FF8_0000_0000_0000))).0, Save(true)).1 == Failed(IllegalArgument)
    ensures Step(Step(s, Set(k, Double(0x3FF0_0000_0000_0000))).0, Save(true)).1 == Done
  {
    var nan := s.data[k := Double(0x7FF8_0000_0000_0000)];
    assert k in nan && NonFinite(nan[k]);
  }

  /** `close` on an open connection sets the flag and empties the map; a second
      `close` throws ConnectionAlreadyClosed and changes nothing. */
  lemma CloseThenCloseFails(s: State)
    requires !s.closed
    ensures var s' := Step(s, Close);
      && s'.1 == Done && s'.0.closed && s'.0.data == map[] && s'.0.stored == s.stored
      && Step(s'.0, Close) == (s'.0, Failed(ConnectionAlreadyClosed))
      && Step(s'.0, IsClosed).1 == Answer(true)
  {
  }

  /** The setter of `setLong` as written stores a Short, and the getter of `getLong`
      then throws a ClassCastException: a value set with `setLong` cannot be read
      back with `getLong`. */
  lemma SetLongAsWrittenBreaksGetLong(s: State, k: string, v: int16)
    requires !s.closed
    ensures Step(Step(s, Set(k, Short(v))).0, GetAs(k, LongKind)).1 == Failed(ClassCast)
  {
  }

  /** The corrected `setLong`, storing a Long, round-trips through `getLong`. */
  lemma SetLongRoundTrip(s: State, k: string, v: int64)
    requires !s.closed
    ensures Step(Step(s, Set(k, Long(v))).0, GetAs(k, LongKind)).1 == Got(Long(v))
  {
  }

  // ---------------------------------------------------------------------------
  // Whole traces

  /** The reply every operation gets from a closed connection. */
  function ClosedReply(op: Op): Reply
  {
    if op.IsClosed? then Answer(true)
    else if op.Close? then Failed(ConnectionAlreadyClosed)
    else Failed(ConnectionClosed)
  }

  /** Closed is terminal: from a closed state no sequence of operations changes
      anything, every operation but IsClosed fails, and IsClosed answers true. */
  lemma {:induction false} ClosedIsTerminal(s: State, ops: seq<Op>)
    requires s.closed
    ensures Run(s, ops).0 == s
    ensures forall i :: 0 <= i < |ops| ==> Run(s, ops).1[i] == ClosedReply(ops[i])
  {
    if ops != [] {
      var pre := ops[..|ops| - 1];
      ClosedIsTerminal(s, pre);
      var last := ops[|ops| - 1];
      var r := Run(s, ops);
      assert r.1 == Run(s, pre).1 + [Step(s, last).1];
      forall i | 0 <= i < |ops|
        ensures r.1[i] == ClosedReply(ops[i])
      {
        if i < |ops| - 1 {
          assert ops[i] == pre[i];
        }
      }
    }
  }

  /** The flag is monotone: after a sequence of operations the connection is closed
      exactly when it was closed before or the sequence contains a Close. */
  lemma {:induction false} ClosedIffCloseSeen(s: State, ops: seq<Op>)
    ensures Run(s, ops).0.closed <==> s.closed || Op.Close in ops
  {
    if ops != [] {
      var pre := ops[..|ops| - 1];
      ClosedIffCloseSeen(s, pre);
      assert ops == pre + [ops[|ops| - 1]];
    }
  }

  /** How a sequence of operations last touched a key. */
  datatype Write = Untouched | Written(value: Value) | Removed

  function LastWrite(ops: seq<Op>, k: string): Write
    decreases |ops|
  {
    if ops == [] then Untouched
    else
      match ops[|ops| - 1]
      case Set(k', v) => if k' == k then Written(v) else LastWrite(ops[..|ops| - 1], k)
      case Remove(k') => if k' == k then Removed else LastWrite(ops[..|ops| - 1], k)
      case _ => LastWrite(ops[..|ops| - 1], k)
  }

  /** The entry a key holds after a last write, given the entry it held before. */
  function After(w: Write, before: Option<Value>): Option<Value>
  {
    match w
    case Untouched => before
    case Written(v) => Some(v)
    case Removed => None
  }

  /** On a connection that stays open, a key is present exactly when it was set and
      not removed afterwards (or was loaded and never touched), and it holds the
      value of its last `set`. */
  lemma {:induction false} EntryFollowsLastWrite(s: State, ops: seq<Op>, k: string)
    requires !s.closed && Op.Close !in ops
    ensures !Run(s, ops).0.closed
    ensures Entry(Run(s, ops).0.data, k) == After(LastWrite(ops, k), Entry(s.data, k))
  {
    if ops != [] {
      var pre := ops[..|ops| - 1];
      var last := ops[|ops| - 1];
      assert ops == pre + [last];
      EntryFollowsLastWrite(s, pre, k);
      var mid := Run(s, pre).0;
      assert Run(s, ops).0 == Step(mid, last).0;
      match last
      case Set(k', v) =>
      case Remove(k') =>
      case _ =>
    }
  }

  /** The scenario of the repository's data test, for any key and string: set it,
      save, close, open the file again, and the String getter returns it. */
  lemma WrittenStringSurvivesReopen(c: Content, k: string, str: string)
    requires Open(c).Success? && Encodable(Open(c).value.data)
    ensures var s := Run(Open(c).value, [Set(k, Str(str)), Save(true), Close]).0;
      && s.closed
      && Open(s.stored).Success?
      && Step(Open(s.stored).value, GetAs(k, StringKind)).1 == Got(Str(str))
  {
    var s0 := Open(c).value;
    var ops := [Set(k, Str(str)), Save(true), Close];
    var s1 := Step(s0, ops[0]).0;
    var s2 := Step(s1, ops[1]).0;
    assert ops[..1] == [ops[0]] && ops[..2] == [ops[0], ops[1]];
    assert Run(s0, ops[..1]).0 == s1;
    assert Run(s0, ops[..2]).0 == s2;
    assert s2.stored == Json(s0.data[k := Str(str)]);
  }
}
