# Keybase connection, modelled in Dafny

Keybase is an embedded single-file key-value store for Java. A *connection*
(`KeybaseConnection`, implemented by `KeybaseConnectionImpl`) holds the database
map (`HashMap<String, Object>` inside `KeybaseDatabaseObject`), the backing file
and a `closed` flag. It has two states: Open (initial) and Closed (terminal).
`get`, the typed getters, `set`, the typed setters, `remove`, `exists` and `save`
all throw `ConnectionClosedException` on a closed connection. A second `close`
throws `ConnectionAlreadyClosedException`. `isClosed` always answers.

The project has three modules:

- `KeybaseValues` (keybase_values.dfy) holds the values a database can store.
  Java `int`, `byte`, `short` and `long` are bounded newtypes. Doubles and floats
  are opaque bit patterns. `Null` stands for Java's null. The module also holds
  the exceptions as an `Error` datatype and Java's checked cast from `Object`
  (`Cast`).
- `KeybaseSpec` (keybase_spec.dfy) describes one connection as a pure state
  machine. The state is the map, the flag and the file content. `Step` applies
  one operation and `Run` applies a sequence of them. `Load` and `Open` model the
  bootstrap. The lemmas state the lifecycle and map properties for single
  operations and for whole traces.
- `KeybaseConnection` (keybase_connection.dfy) holds the `Connection` class. Its
  `data` and `closed` fields are updated in place, and it refers to a shared
  `DbFile` object that `Save` overwrites. Every method's contract ties its result
  and new state to `KeybaseSpec.Step`, so the lemmas proved about `Step` and
  `Run` also hold of the class. `CreateConnection` is the bootstrap. Two scenario
  methods replay the repository's data test and the "last save wins" behaviour
  of two connections on one file.

Java's exceptions become `Result` values. `save`'s I/O outcome is a `writeOk`
parameter chosen by the environment. The JSON codec is abstract: a saved file
holds `Json(m)` for the map `m`, and loading it gives `m` back. The one encoding
failure that is modelled is Gson's: the instance built at
src/main/java/com/github/lory24/keybase/Keybase.java:31 does not serialize special
floating-point values, so `save` throws an IllegalArgumentException, before
anything is written, when the map holds a NaN or infinite Double or Float.

`Keybase.createConnection`
(src/main/java/com/github/lory24/keybase/Keybase.java:42-45) does not fall back to
an empty map for a missing or malformed file:

- A missing file throws from `Files.readAllBytes`.
- Malformed text throws `JsonSyntaxException`.
- Only text that decodes to null (an empty file) gives an empty map.

`Load` models these three cases.

## Model

| member | source | states |
|---|---|---|
| KeybaseValues.Cast | src/main/java/com/github/lory24/keybase/KeybaseConnectionImpl.java:55-130 | The cast a typed getter applies succeeds exactly when the value's runtime class is the requested one, or when it is null and the target is String. On success it returns the value unchanged. On failure it raises NullPointer for null (unboxing) and ClassCast otherwise. |
| KeybaseSpec.Step | src/main/java/com/github/lory24/keybase/KeybaseConnection.java:24-238 | Only Close sets the flag and nothing clears it. The closed-implies-empty invariant is preserved. Only Save changes the file. Only Set, Remove and Close change the map. On a closed connection every operation but IsClosed fails and changes nothing. IsClosed never fails and returns the flag. |
| KeybaseSpec.Run | src/main/java/com/github/lory24/keybase/KeybaseConnectionImpl.java:20-22 | A trace gives one reply per operation and preserves the invariant. If it ends closed, it started closed or contained a Close. |
| KeybaseSpec.Open | src/main/java/com/github/lory24/keybase/Keybase.java:42-45 | Opening succeeds exactly for an empty file (giving an empty map) or a well-formed one (giving its snapshot). It fails for a missing or malformed file. A new connection is open and keeps the file it was opened on. |
| KeybaseSpec.SetIsUpsert | src/main/java/com/github/lory24/keybase/KeybaseConnectionImpl.java:139-144 | After `set(k, v)`, `k` maps to `v` whether or not it was present, and the keys are the old keys plus `k`. No other key's entry changes. The size grows by one only for a new key. |
| KeybaseSpec.SetTwiceKeepsLast | src/main/java/com/github/lory24/keybase/KeybaseConnection.java:107-114 | Two sets of one key equal a single set with the second value (never two values per key), and `exists` then answers true. |
| KeybaseSpec.RemoveDeletesOnly | src/main/java/com/github/lory24/keybase/KeybaseConnectionImpl.java:242-246 | `remove(k)` succeeds, removes exactly `k` and leaves every other entry. For an absent key it changes nothing. A second `remove(k)` has the same effect as one. |
| KeybaseSpec.ReadsReportEntries | src/main/java/com/github/lory24/keybase/KeybaseConnectionImpl.java:42-46 | On an open connection `get` always answers. It answers null exactly when the key is absent or holds a stored null, so it cannot tell the two apart. `exists` answers whether there is an entry at all, so it can. Neither changes the state. |
| KeybaseSpec.TypedRoundTrip | src/main/java/com/github/lory24/keybase/KeybaseConnectionImpl.java:55-233 | After a typed set, the getter of the matching type returns the value. A getter of another type fails with ClassCast. A stored null reads as null through `getString` and fails with NullPointer through the primitive getters. |
| KeybaseSpec.TypedGetAbsentKey | src/main/java/com/github/lory24/keybase/KeybaseConnectionImpl.java:55-130 | For an absent key, `getString` returns null and every primitive getter fails with NullPointer. |
| KeybaseSpec.SaveOverwritesFile | src/main/java/com/github/lory24/keybase/KeybaseConnectionImpl.java:268-272 | The map and flag are never changed by a save. If the map holds a NaN or infinite number, encoding fails with IllegalArgument and nothing is written. Otherwise a successful write replaces the file with the whole current map, whatever the file held before, so loading it gives the map back. A failed write is reported as an I/O failure and changes nothing. |
| KeybaseSpec.SaveRejectsNaN | src/main/java/com/github/lory24/keybase/Keybase.java:31 | After setting a key to a double NaN, `save` fails with IllegalArgument. After setting it to 1.0 instead, `save` succeeds. |
| KeybaseSpec.CloseThenCloseFails | src/main/java/com/github/lory24/keybase/KeybaseConnectionImpl.java:282-287 | Closing an open connection sets the flag, empties the map and leaves the file alone. A second close fails with ConnectionAlreadyClosed and changes nothing. `isClosed` then answers true. |
| KeybaseSpec.SetLongAsWrittenBreaksGetLong | src/main/java/com/github/lory24/keybase/KeybaseConnectionImpl.java:230-233 | A value stored by `setLong` as declared (a short) cannot be read back by `getLong`: the cast fails with ClassCast. |
| KeybaseSpec.SetLongRoundTrip | src/main/java/com/github/lory24/keybase/KeybaseConnectionImpl.java:127-130 | A long stored by the corrected `setLong` is read back by `getLong`. |
| KeybaseSpec.ClosedIsTerminal | src/main/java/com/github/lory24/keybase/KeybaseConnection.java:221-230 | From a closed state, any sequence of operations leaves the state unchanged. Close fails with ConnectionAlreadyClosed, IsClosed answers true, and every other operation fails with ConnectionClosed. |
| KeybaseSpec.ClosedIffCloseSeen | src/main/java/com/github/lory24/keybase/KeybaseConnectionImpl.java:283-285 | After any sequence of operations the connection is closed exactly when it was closed before or the sequence contained a Close, so the flag never goes back to false. |
| KeybaseSpec.EntryFollowsLastWrite | src/main/java/com/github/lory24/keybase/KeybaseConnectionImpl.java:139-146 | Consider an open connection and a sequence without Close. Afterwards, each key holds the value of its last `set`, is absent if its last write was a `remove`, and otherwise keeps the entry it was loaded with. The connection stays open. |
| KeybaseSpec.WrittenStringSurvivesReopen | src/test/java/com/github/lory24/keybase/test/DataTests.java:16-28 | On any file that opens and holds no NaN or infinite number: set a string, save, close, and reopen the file. `getString` on the new connection returns that string. |
| KeybaseConnection.Connection.constructor | src/main/java/com/github/lory24/keybase/KeybaseConnectionImpl.java:30-33 | A new connection is open, holds the given map and refers to the given file. |
| KeybaseConnection.Connection.Get | src/main/java/com/github/lory24/keybase/KeybaseConnectionImpl.java:42-46 | Fails with ConnectionClosed when closed. Otherwise returns the stored value, or null for an absent key. Agrees with `Step` and changes nothing. |
| KeybaseConnection.Connection.GetString | src/main/java/com/github/lory24/keybase/KeybaseConnectionImpl.java:55-58 | Its result is the reply of `Step` for a String-typed read: the gate, null passing through, ClassCast for any other class. |
| KeybaseConnection.Connection.GetInt | src/main/java/com/github/lory24/keybase/KeybaseConnectionImpl.java:67-70 | Its result is the reply of `Step` for an int-typed read: the gate, NullPointer on null, ClassCast unless an Integer is stored. |
| KeybaseConnection.Connection.GetDouble | src/main/java/com/github/lory24/keybase/KeybaseConnectionImpl.java:79-82 | Its result is the reply of `Step` for a double-typed read: the gate, NullPointer on null, ClassCast unless a Double is stored. |
| KeybaseConnection.Connection.GetFloat | src/main/java/com/github/lory24/keybase/KeybaseConnectionImpl.java:91-94 | Its result is the reply of `Step` for a float-typed read: the gate, NullPointer on null, ClassCast unless a Float is stored. |
| KeybaseConnection.Connection.GetByte | src/main/java/com/github/lory24/keybase/KeybaseConnectionImpl.java:103-106 | Its result is the reply of `Step` for a byte-typed read: the gate, NullPointer on null, ClassCast unless a Byte is stored. |
| KeybaseConnection.Connection.GetShort | src/main/java/com/github/lory24/keybase/KeybaseConnectionImpl.java:115-118 | Its result is the reply of `Step` for a short-typed read: the gate, NullPointer on null, ClassCast unless a Short is stored. |
| KeybaseConnection.Connection.GetLong | src/main/java/com/github/lory24/keybase/KeybaseConnectionImpl.java:127-130 | Its result is the reply of `Step` for a long-typed read: the gate, NullPointer on null, ClassCast unless a Long is stored. |
| KeybaseConnection.Connection.Set | src/main/java/com/github/lory24/keybase/KeybaseConnectionImpl.java:139-144 | Fails with ConnectionClosed and changes nothing when closed. Otherwise the map becomes the old map with `key` mapped to `value`. The flag is unchanged and the invariant is kept. Agrees with `Step`. |
| KeybaseConnection.Connection.SetString | src/main/java/com/github/lory24/keybase/KeybaseConnectionImpl.java:153-156 | Behaves exactly as `set` with a String value. |
| KeybaseConnection.Connection.SetInt | src/main/java/com/github/lory24/keybase/KeybaseConnectionImpl.java:166-169 | Behaves exactly as `set` with an Integer value. |
| KeybaseConnection.Connection.SetDouble | src/main/java/com/github/lory24/keybase/KeybaseConnectionImpl.java:179-182 | Behaves exactly as `set` with a Double value. |
| KeybaseConnection.Connection.SetFloat | src/main/java/com/github/lory24/keybase/KeybaseConnectionImpl.java:192-195 | Behaves exactly as `set` with a Float value. |
| KeybaseConnection.Connection.SetByte | src/main/java/com/github/lory24/keybase/KeybaseConnectionImpl.java:204-207 | Behaves exactly as `set` with a Byte value. |
| KeybaseConnection.Connection.SetShort | src/main/java/com/github/lory24/keybase/KeybaseConnectionImpl.java:217-220 | Behaves exactly as `set` with a Short value. |
| KeybaseConnection.Connection.SetLongAsWritten | src/main/java/com/github/lory24/keybase/KeybaseConnectionImpl.java:230-233 | `setLong` as declared: it takes a short and behaves exactly as `set` with a Short value. |
| KeybaseConnection.Connection.SetLong | src/main/java/com/github/lory24/keybase/KeybaseConnection.java:174-182 | `setLong` as documented: it behaves exactly as `set` with a Long value. |
| KeybaseConnection.Connection.Remove | src/main/java/com/github/lory24/keybase/KeybaseConnectionImpl.java:242-246 | Fails with ConnectionClosed and changes nothing when closed. Otherwise the map becomes the old map minus `key`; an absent key is not an error. Agrees with `Step`. |
| KeybaseConnection.Connection.Exists | src/main/java/com/github/lory24/keybase/KeybaseConnectionImpl.java:255-259 | Fails with ConnectionClosed when closed. Otherwise answers whether `key` is in the map. Changes nothing. |
| KeybaseConnection.Connection.Save | src/main/java/com/github/lory24/keybase/KeybaseConnectionImpl.java:268-272 | Fails with ConnectionClosed when closed. Fails with IllegalArgument, before writing, when the map holds a NaN or infinite number. After a successful write the file holds exactly the current map. Every failure leaves the file as it was. Agrees with `Step`. |
| KeybaseConnection.Connection.Close | src/main/java/com/github/lory24/keybase/KeybaseConnectionImpl.java:282-287 | Fails with ConnectionAlreadyClosed and changes nothing when already closed. Otherwise sets the flag and empties the map. Either way the connection is closed afterwards. |
| KeybaseConnection.Connection.IsClosed | src/main/java/com/github/lory24/keybase/KeybaseConnectionImpl.java:295-298 | Returns the flag in either state, never fails and changes nothing. |
| KeybaseConnection.CreateConnection | src/main/java/com/github/lory24/keybase/Keybase.java:42-45 | A missing file fails with IOFailure and a malformed one with JsonSyntax. Otherwise it returns a fresh open connection on the file whose state is `Open` of the file's content. |
| KeybaseConnection.HelloWorldScenario | src/test/java/com/github/lory24/keybase/test/DataTests.java:16-28 | Start from an empty file. Set "Hello" to "World", save and close. A second connection on the file then reads "World". |
| KeybaseConnection.LastSaveWinsScenario | src/main/java/com/github/lory24/keybase/KeybaseConnection.java:8-14 | Two connections are opened on one empty file. A sets x and saves, then B sets y and saves. The file then holds only y: A's edit is lost. |

## Left out

- JSON encoding and decoding (Gson) are external. A saved file is modelled as the map itself, so apart from the NaN and infinity failure the codec is an exact round trip. Gson reloads numbers as `Double`, which makes `getInt` fail after a reload, and it drops null entries when writing. Neither is modelled. Any other object Gson cannot encode (an `Other` value) is assumed to encode.
- Text that is valid JSON but gives a database object with a null map is not modelled.
- `finalize` (KeybaseConnectionImpl.java:300-304), a garbage-collector hook that saves and then closes, is not modelled: it runs at an unpredictable time.
- `getSerializedObject` and `setSerializedObject` are declared in the interface (KeybaseConnection.java:105, 192), but `KeybaseConnectionImpl` does not define them. There is no behaviour to model.
- Floating-point values are opaque bit patterns. No floating-point arithmetic or comparison is modelled.
- KeybaseConnection.Connection.Save: a failed `Files.write` is modelled as leaving the file unchanged. The real write may leave the file truncated or partly written. Whether the write succeeds is a parameter, not a modelled file system.
- KeybaseSpec.WrittenStringSurvivesReopen: the bootstrap decodes the file with the platform's default charset (Keybase.java:43), while `save` writes UTF-8 (KeybaseConnectionImpl.java:271). Where the default charset is not UTF-8, a saved non-ASCII string reopens as different characters; the model assumes the two agree. A Dafny `string` also cannot hold the unpaired UTF-16 surrogates a Java `String` can, which UTF-8 encoding would turn into "?".
- Null keys, which `HashMap` accepts, are not modelled: keys are strings.
- Concurrency and multi-process file access are not modelled. Operations are sequential. Sharing is limited to two connections on one `DbFile`, in sequence.
- The exception messages are not modelled. Each exception is an `Error` constructor.

## Findings

| source | as written | input that shows it | evidently intended | confidence | as-written member | corrected member |
|---|---|---|---|---|---|---|
| src/main/java/com/github/lory24/keybase/KeybaseConnectionImpl.java:231 (and KeybaseConnection.java:182) | `setLong(String key, short value)` stores a `Short` | `setLong("n", (short) 5)` then `getLong("n")`: the `(long)` cast of a `Short` throws ClassCastException | `setLong` takes a `long`, so that `getLong` reads the value back | high; not executed | KeybaseConnection.Connection.SetLongAsWritten, KeybaseSpec.SetLongAsWrittenBreaksGetLong | KeybaseConnection.Connection.SetLong, KeybaseSpec.SetLongRoundTrip |
