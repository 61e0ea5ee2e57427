/** The connection object (`KeybaseConnectionImpl`): a database map updated in
    place, a closed flag, and the backing file it saves to. Every method is proved
    against `KeybaseSpec.Step`, so the lemmas proved there hold of the class. */
module KeybaseConnection {
  import opened KeybaseValues
  import opened KeybaseSpec

  /** The backing file, shared by every connection opened on the same path. */
  class DbFile {
    var content: Content

    constructor (content: Content)
      ensures this.content == content
    {
      this.content := content;
    }
  }

  class Connection {
    var data: map<string, Value>
    var closed: bool
    const file: DbFile

    /** The connection's state as the specification sees it. */
    ghost function Abs(): State
      reads this, file
    {
      State(data, closed, file.content)
    }

    ghost predicate Valid()
      reads this
    {
      closed ==> data == map[]
    }

    constructor (data: map<string, Value>, file: DbFile)
      ensures Valid() && !closed
      ensures this.data == data && this.file == file
    {
      this.data := data;
      this.file := file;
      this.closed := false;
    }

    /** `get`: the stored value, or null for an absent key. */
    method Get(key: string) returns (r: Result<Value>)
      ensures closed ==> r == Failure(ConnectionClosed)
      ensures !closed ==> r == Success(if key in data then data[key] else Null)
      ensures Step(Abs(), Op.Get(key)) == (Abs(), AsReply(r, (v: Value) => Got(v)))
    {
      if closed {
        return Failure(ConnectionClosed);
      }
      r := Success(Lookup(data, key));
    }

    /** `getString`: a (String) cast, which lets null through. */
    method GetString(key: string) returns (r: Result<Option<string>>)
      ensures Step(Abs(), GetAs(key, StringKind))
           == (Abs(), AsReply(r, (o: Option<string>) => Got(if o.Some? then Str(o.value) else Null)))
    {
      var v := Get(key);
      match v
      case Failure(e) => r := Failure(e);
      case Success(Null) => r := Success(None);
      case Success(Str(s)) => r := Success(Some(s));
      case Success(_) => r := Failure(ClassCast);
    }

    /** `getInt`: an (int) cast, which unboxes an Integer. */
    method GetInt(key: string) returns (r: Result<int32>)
      ensures Step(Abs(), GetAs(key, IntKind)) == (Abs(), AsReply(r, (x: int32) => Got(Int(x))))
    {
      var v := Get(key);
      match v
      case Failure(e) => r := Failure(e);
      case Success(Null) => r := Failure(NullPointer);
      case Success(Int(x)) => r := Success(x);
      case Success(_) => r := Failure(ClassCast);
    }

    /** `getDouble`: a (double) cast, which unboxes a Double. */
    method GetDouble(key: string) returns (r: Result<bv64>)
      ensures Step(Abs(), GetAs(key, DoubleKind)) == (Abs(), AsReply(r, (x: bv64) => Got(Double(x))))
    {
      var v := Get(key);
      match v
      case Failure(e) => r := Failure(e);
      case Success(Null) => r := Failure(NullPointer);
      case Success(Double(x)) => r := Success(x);
      case Success(_) => r := Failure(ClassCast);
    }

    /** `getFloat`: a (float) cast, which unboxes a Float. */
    method GetFloat(key: string) returns (r: Result<bv32>)
      ensures Step(Abs(), GetAs(key, FloatKind)) == (Abs(), AsReply(r, (x: bv32) => Got(Float(x))))
    {
      var v := Get(key);
      match v
      case Failure(e) => r := Failure(e);
      case Success(Null) => r := Failure(NullPointer);
      case Success(Float(x)) => r := Success(x);
      case Success(_) => r := Failure(ClassCast);
    }

    /** `getByte`: a (byte) cast, which unboxes a Byte. */
    method GetByte(key: string) returns (r: Result<int8>)
      ensures Step(Abs(), GetAs(key, ByteKind)) == (Abs(), AsReply(r, (x: int8) => Got(Byte(x))))
    {
      var v := Get(key);
      match v
      case Failure(e) => r := Failure(e);
      case Success(Null) => r := Failure(NullPointer);
      case Success(Byte(x)) => r := Success(x);
      case Success(_) => r := Failure(ClassCast);
    }

    /** `getShort`: a (short) cast, which unboxes a Short. */
    method GetShort(key: string) returns (r: Result<int16>)
      ensures Step(Abs(), GetAs(key, ShortKind)) == (Abs(), AsReply(r, (x: int16) => Got(Short(x))))
    {
      var v := Get(key);
      match v
      case Failure(e) => r := Failure(e);
      case Success(Null) => r := Failure(NullPointer);
      case Success(Short(x)) => r := Success(x);
      case Success(_) => r := Failure(ClassCast);
    }

    /** `getLong`: a (long) cast, which unboxes a Long. */
    method GetLong(key: string) returns (r: Result<int64>)
      ensures Step(Abs(), GetAs(key, LongKind)) == (Abs(), AsReply(r, (x: int64) => Got(Long(x))))
    {
      var v := Get(key);
      match v
      case Failure(e) => r := Failure(e);
      case Success(Null) => r := Failure(NullPointer);
      case Success(Long(x)) => r := Success(x);
      case Success(_) => r := Failure(ClassCast);
    }

    /** `set`: insert the key when absent, replace its value when present. */
    method Set(key: string, value: Value) returns (r: Result<()>)
      requires Valid()
      modifies this
      ensures Valid() && closed == old(closed)
      ensures old(closed) ==> r == Failure(ConnectionClosed) && data == old(data)
      ensures !old(closed) ==> r == Success(()) && data == old(data)[key := value]
      ensures (Abs(), AsReply(r, (_: ()) => Done)) == Step(old(Abs()), Op.Set(key, value))
    {
      if closed {
        return Failure(ConnectionClosed);
      }
      if key !in data {
        data := data[key := value];   // HashMap.put
      } else {
        data := data[key := value];   // HashMap.replace
      }
      r := Success(());
    }

    method SetString(key: string, value: string) returns (r: Result<()>)
      requires Valid()
      modifies this
      ensures Valid()
      ensures (Abs(), AsReply(r, (_: ()) => Done)) == Step(old(Abs()), Op.Set(key, Str(value)))
    {
      r := Set(key, Str(value));
    }

    method SetInt(key: string, value: int32) returns (r: Result<()>)
      requires Valid()
      modifies this
      ensures Valid()
      ensures (Abs(), AsReply(r, (_: ()) => Done)) == Step(old(Abs()), Op.Set(key, Int(value)))
    {
      r := Set(key, Int(value));
    }

    method SetDouble(key: string, value: bv64) returns (r: Result<()>)
      requires Valid()
      modifies this
      ensures Valid()
      ensures (Abs(), AsReply(r, (_: ()) => Done)) == Step(old(Abs()), Op.Set(key, Double(value)))
    {
      r := Set(key, Double(value));
    }

    method SetFloat(key: string, value: bv32) returns (r: Result<()>)
      requires Valid()
      modifies this
      ensures Valid()
      ensures (Abs(), AsReply(r, (_: ()) => Done)) == Step(old(Abs()), Op.Set(key, Float(value)))
    {
      r := Set(key, Float(value));
    }

    method SetByte(key: string, value: int8) returns (r: Result<()>)
      requires Valid()
      modifies this
      ensures Valid()
      ensures (Abs(), AsReply(r, (_: ()) => Done)) == Step(old(Abs()), Op.Set(key, Byte(value)))
    {
      r := Set(key, Byte(value));
    }

    method SetShort(key: string, value: int16) returns (r: Result<()>)
      requires Valid()
      modifies this
      ensures Valid()
      ensures (Abs(), AsReply(r, (_: ()) => Done)) == Step(old(Abs()), Op.Set(key, Short(value)))
    {
      r := Set(key, Short(value));
    }

    /** `setLong` as the source declares it: its parameter is a short, so the value
        stored is a Short, which `getLong` cannot read back. */
    method SetLongAsWritten(key: string, value: int16) returns (r: Result<()>)
      requires Valid()
      modifies this
      ensures Valid()
      ensures (Abs(), AsReply(r, (_: ()) => Done)) == Step(old(Abs()), Op.Set(key, Short(value)))
    {
      r := Set(key, Short(value));
    }

    /** `setLong` as evidently intended: it takes and stores a long. */
    method SetLong(key: string, value: int64) returns (r: Result<()>)
      requires Valid()
      modifies this
      ensures Valid()
      ensures (Abs(), AsReply(r, (_: ()) => Done)) == Step(old(Abs()), Op.Set(key, Long(value)))
    {
      r := Set(key, Long(value));
    }

    /** `remove`: delete the key; an absent key is left alone without error. */
    method Remove(key: string) returns (r: Result<()>)
      requires Valid()
      modifies this
      ensures Valid() && closed == old(closed)
      ensures old(closed) ==> r == Failure(ConnectionClosed) && data == old(data)
      ensures !old(closed) ==> r == Success(()) && data == old(data) - {key}
      ensures (Abs(), AsReply(r, (_: ()) => Done)) == Step(old(Abs()), Op.Remove(key))
    {
      if closed {
        return Failure(ConnectionClosed);
      }
      data := data - {key};
      r := Success(());
    }

    /** `exists`: whether the key is registered. */
    method Exists(key: string) returns (r: Result<bool>)
      ensures closed ==> r == Failure(ConnectionClosed)
      ensures !closed ==> r == Success(key in data)
      ensures Step(Abs(), Op.Exists(key)) == (Abs(), AsReply(r, (b: bool) => Answer(b)))
    {
      if closed {
        return Failure(ConnectionClosed);
      }
      r := Success(key in data);
    }

    /** `save`: encode the current map and overwrite the whole file with it.
        `writeOk` is the outcome of the file write. */
    method Save(writeOk: bool) returns (r: Result<()>)
      modifies file
      ensures r.Failure? ==> file.content == old(file.content)
      ensures !old(closed) && !Encodable(data) ==> r == Failure(IllegalArgument)
      ensures !old(closed) && Encodable(data) && writeOk ==> r == Success(()) && file.content == Json(data)
      ensures (Abs(), AsReply(r, (_: ()) => Done)) == Step(old(Abs()), Op.Save(writeOk))
    {
      if closed {
        return Failure(ConnectionClosed);
      }
      if exists k | k in data :: NonFinite(data[k]) {
        return Failure(IllegalArgument);   // Gson's toJson, before Files.write
      }
      if !writeOk {
        return Failure(IOFailure);
      }
      file.content := Json(data);
      r := Success(());
    }

    /** `close`: refuse a second close; otherwise set the flag and clear the map. */
    method Close() returns (r: Result<()>)
      requires Valid()
      modifies this
      ensures Valid() && closed
      ensures old(closed) ==> r == Failure(ConnectionAlreadyClosed) && data == old(data)
      ensures !old(closed) ==> r == Success(()) && data == map[]
      ensures (Abs(), AsReply(r, (_: ()) => Done)) == Step(old(Abs()), Op.Close)
    {
      if closed {
        return Failure(ConnectionAlreadyClosed);
      }
      closed := true;
      data := map[];
      r := Success(());
    }

    /** `isClosed`: the flag, in either state, never failing. */
    method IsClosed() returns (b: bool)
      ensures b == closed
      ensures Step(Abs(), Op.IsClosed) == (Abs(), Answer(b))
    {
      b := closed;
    }
  }

  /** `Keybase.createConnection`: decode the file and open a connection on it. */
  method CreateConnection(file: DbFile) returns (r: Result<Connection>)
    ensures Open(file.content).Failure? ==> r.Failure? && r.error == Open(file.content).error
    ensures Open(file.content).Success? ==>
      && r.Success? && fresh(r.value) && r.value.Valid() && r.value.file == file
      && r.value.Abs() == Open(file.content).value
  {
    match Load(file.content)
    case Failure(e) =>
      r := Failure(e);
    case Success(m) =>
      var c := new Connection(m, file);
      r := Success(c);
  }

  /** The repository's data test: on an existing empty file, set "Hello" to
      "World", save, close, open a second connection on the file and read it. */
  method HelloWorldScenario() returns (value: Result<Option<string>>)
    ensures value == Success(Some("World"))
  {
    var f := new DbFile(Blank);
    var first := CreateConnection(f);
    var connection := first.value;
    var ok := connection.SetString("Hello", "World");
    ok := connection.Save(true);
    ok := connection.Close();

    var second := CreateConnection(f);
    var connection2 := second.value;
    value := connection2.GetString("Hello");
    ok := connection2.Close();
  }

  /** Two connections on one file: A sets x and saves, then B, loaded before A's
      save, sets y and saves. The last save wins and A's entry is lost. */
  method LastSaveWinsScenario() returns (stored: Content)
    ensures stored == Json(map["y" := Int(2)])
  {
    var f := new DbFile(Blank);
    var openedA := CreateConnection(f);
    var openedB := CreateConnection(f);
    var a, b := openedA.value, openedB.value;
    var ok := a.SetInt("x", 1);
    ok := a.Save(true);
    ok := b.SetInt("y", 2);
    ok := b.Save(true);
    stored := f.content;
  }
}
