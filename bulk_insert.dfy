/** The loader's state and its two stateful steps: opening the database
    connection once (`getDbConnection`, Utilities/bulk_insert.js:65-98) and
    reading the input file window by window until end of file
    (Utilities/bulk_insert.js:224-254, repeated at :162-192).

    `mysql.createConnection` is an opaque token built from the validated
    parameters; the file is an in-memory sequence of bytes, read as
    characters, and `fs.readSync` copies from it. */
module BulkInsert {
  import opened Outcomes
  import opened JsText
  import opened RecordSlicing
  import opened RecordLayout
  import opened RecordDecoder

  // ---------------------------------------------------------------------
  // Constants (Utilities/bulk_insert.js:9-34)

  const DbCharset: string := "utf8mb4"

  /** The server's usual `max_allowed_packet`, in bytes (64 MiB). */
  const DefaultMaxAllowedPacket: nat := 67108864

  /** `max_allowed_packet` while the bulk insert runs, in bytes (500 MiB). */
  const BulkInsertMaxAllowedPacket: nat := 524288000

  /** Characters per row, the line terminator included (:27-28). */
  const FixedRowLength: nat := 1800

  /** Records read and inserted at a time. */
  const MaxBulkInsertCount: nat := 145554

  /** Bytes per read: one stride of `FixedRowLength + 1` per record. */
  const MaxFileLengthToRead: nat := MaxBulkInsertCount * (FixedRowLength + 1)

  // ---------------------------------------------------------------------
  // The connection

  /** What `mysql.createConnection` is given; stands for the connection
      object it returns. */
  datatype Connection = Connection(host: string, user: string, database: string, password: string, charset: string)

  /** The errors thrown at :69-82, one per missing parameter. */
  datatype ConnectionError =
    | MissingHost
    | MissingUser
    | MissingDatabase
    | MissingPassword(user: string, host: string, database: string)

  /** JavaScript falsiness of a parameter that is a string or absent
      (`null`/`undefined`): absent or empty. */
  predicate Falsy(v: Option<string>) {
    v.None? || v.value == ""
  }

  /** Position, in the order host, user, database, password, of the
      parameter each error reports. */
  function MissingIndex(e: ConnectionError): nat {
    match e
    case MissingHost => 0
    case MissingUser => 1
    case MissingDatabase => 2
    case MissingPassword(_, _, _) => 3
  }

  /** Index of the first falsy parameter, or `|params|` when none is. */
  function FirstFalsy(params: seq<Option<string>>): (i: nat)
    ensures i <= |params|
    ensures forall j :: 0 <= j < i ==> !Falsy(params[j])
    ensures i < |params| ==> Falsy(params[i])
  {
    if |params| == 0 then 0
    else if Falsy(params[0]) then 0
    else 1 + FirstFalsy(params[1..])
  }

  /** The validation cascade of :69-90 with no connection yet: the first
      missing parameter, in the order host, user, database, password,
      decides the error; with all four present the connection is made with
      the `utf8mb4` character set. */
  function ConnectionAttempt(host: Option<string>, user: Option<string>, database: Option<string>,
                             password: Option<string>): (r: Result<Connection, ConnectionError>)
    ensures var i := FirstFalsy([host, user, database, password]);
      && (r.Ok? <==> i == 4)
      && (r.Err? ==> MissingIndex(r.error) == i)
    ensures r.Ok? ==>
      (host.Some? && user.Some? && database.Some? && password.Some?
       && r.value == Connection(host.value, user.value, database.value, password.value, DbCharset))
    ensures r.Err? && r.error.MissingPassword? ==>
      (host.Some? && user.Some? && database.Some?
       && r.error == MissingPassword(user.value, host.value, database.value))
  {
    var params := [host, user, database, password];
    assert params[1..] == [user, database, password];
    assert params[1..][1..] == [database, password];
    assert FirstFalsy(params) == if Falsy(host) then 0 else 1 + FirstFalsy([user, database, password]);
    assert FirstFalsy([user, database, password]) == if Falsy(user) then 0 else 1 + FirstFalsy([database, password]);
    assert [database, password][1..] == [password];
    assert FirstFalsy([database, password]) == if Falsy(database) then 0 else 1 + FirstFalsy([password]);
    assert FirstFalsy([password]) == if Falsy(password) then 0 else 1;
    if Falsy(host) then Err(MissingHost)
    else if Falsy(user) then Err(MissingUser)
    else if Falsy(database) then Err(MissingDatabase)
    else if Falsy(password) then Err(MissingPassword(user.value, host.value, database.value))
    else Ok(Connection(host.value, user.value, database.value, password.value, DbCharset))
  }

  // ---------------------------------------------------------------------
  // Reading

  /** What `fs.readSync(fd, buffer, 0, length, position)` returns for a
      file of `fileLength` bytes: as many bytes as are left from
      `position`, at most `length`, and 0 at or past the end. */
  function ReadCount(fileLength: nat, length: nat, position: nat): (n: nat)
    ensures n <= length
    ensures n == 0 <==> length == 0 || position >= fileLength
    ensures n < length ==> position + n >= fileLength
    ensures n > 0 ==> position + n <= fileLength
  {
    if position >= fileLength then 0 else Min(length, fileLength - position)
  }

  /** `fs.readSync(fd, buffer, 0, length, position)` on `file`: copies the
      bytes read to the front of `buffer` and leaves the rest of it as it
      was. */
  method ReadSync(file: seq<char>, buffer: array<char>, length: nat, position: nat) returns (bytesRead: nat)
    requires length <= buffer.Length
    modifies buffer
    ensures bytesRead == ReadCount(|file|, length, position)
    ensures bytesRead > 0 ==> buffer[..bytesRead] == file[position..position + bytesRead]
    ensures buffer[bytesRead..] == old(buffer[bytesRead..])
  {
    bytesRead := ReadCount(|file|, length, position);
    forall i | 0 <= i < bytesRead {
      buffer[i] := file[position + i];
    }
  }

  /** The windows the read loop takes from `rest`, the file from the
      starting position on: full windows, then the short remainder if
      there is one; a file that ends on a window boundary ends with the
      zero-length read and no empty window. */
  function Chunks(rest: seq<char>, window: nat): (chunks: seq<seq<char>>)
    requires window > 0
    ensures forall i :: 0 <= i < |chunks| ==> 0 < |chunks[i]| <= window
    ensures forall i :: 0 <= i < |chunks| - 1 ==> |chunks[i]| == window
    decreases |rest|
  {
    if |rest| == 0 then []
    else if |rest| < window then [rest]
    else [rest[..window]] + Chunks(rest[window..], window)
  }

  /** The chunks one after another. */
  function Flatten(chunks: seq<seq<char>>): seq<char> {
    if |chunks| == 0 then [] else chunks[0] + Flatten(chunks[1..])
  }

  /** The loader's module-level state (:36-38): the read cursor and the
      connection singleton, with the window size fixed at creation. */
  class Loader {
    var filePosition: nat
    var dbConnection: Option<Connection>
    const maxFileLengthToRead: nat

    /** A loader for rows of `fixedRowLength` characters read
        `maxBulkInsertCount` at a time (:28-38). */
    constructor (maxBulkInsertCount: nat, fixedRowLength: nat)
      requires maxBulkInsertCount > 0
      ensures maxFileLengthToRead == maxBulkInsertCount * (fixedRowLength + 1)
      ensures maxFileLengthToRead > 0
      ensures filePosition == 0 && dbConnection == None
    {
      maxFileLengthToRead := maxBulkInsertCount * (fixedRowLength + 1);
      filePosition := 0;
      dbConnection := None;
    }

    /** `getDbConnection`: an existing connection is returned as it is,
        whatever the arguments; otherwise the parameters are validated and
        a successful connection becomes the singleton. The branches are the
        statement form of :66-97, as the source writes them; they are
        proved equal to the expression form `ConnectionAttempt`, which
        states the order of the checks against `FirstFalsy`. */
    method GetDbConnection(host: Option<string>, user: Option<string>, database: Option<string>,
                           password: Option<string>) returns (r: Result<Connection, ConnectionError>)
      modifies this`dbConnection
      ensures old(dbConnection).Some? ==> r == Ok(old(dbConnection).value) && dbConnection == old(dbConnection)
      ensures old(dbConnection).None? ==> r == ConnectionAttempt(host, user, database, password)
      ensures old(dbConnection).None? ==> dbConnection == if r.Ok? then Some(r.value) else None
    {
      if dbConnection.Some? {
        return Ok(dbConnection.value);
      }
      if Falsy(host) {
        return Err(MissingHost);
      } else if Falsy(user) {
        return Err(MissingUser);
      } else if Falsy(database) {
        return Err(MissingDatabase);
      } else if Falsy(password) {
        return Err(MissingPassword(user.value, host.value, database.value));
      }
      dbConnection := Some(Connection(host.value, user.value, database.value, password.value, DbCharset));
      return Ok(dbConnection.value);
    }

    /** The read loop of :236-254: reads windows of `maxFileLengthToRead`
        bytes from `filePosition`, advancing it by each read, until a read
        returns nothing or less than a full window; returns what each
        non-empty read put in the buffer. */
    method ReadInputFile(file: seq<char>) returns (chunks: seq<seq<char>>)
      requires maxFileLengthToRead > 0
      modifies this`filePosition
      ensures old(filePosition) <= |file| ==>
        chunks == Chunks(file[old(filePosition)..], maxFileLengthToRead) && filePosition == |file|
      ensures old(filePosition) > |file| ==> chunks == [] && filePosition == old(filePosition)
    {
      ghost var start := filePosition;
      ghost var window := maxFileLengthToRead;
      var readBuffer := new char[maxFileLengthToRead](_ => '\0');
      var endOfFileReached := false;
      chunks := [];
      while !endOfFileReached
        invariant readBuffer.Length == window
        invariant start > |file| ==> filePosition == start && chunks == [] && !endOfFileReached
        invariant start <= |file| ==> start <= filePosition <= |file|
        invariant start <= |file| && !endOfFileReached ==>
          Chunks(file[start..], window) == chunks + Chunks(file[filePosition..], window)
        invariant start <= |file| && endOfFileReached ==>
          Chunks(file[start..], window) == chunks && filePosition == |file|
        decreases !endOfFileReached, |file| - filePosition
      {
        var bytesRead := ReadSync(file, readBuffer, maxFileLengthToRead, filePosition);
        if bytesRead == 0 || bytesRead < maxFileLengthToRead {
          endOfFileReached := true;
          if bytesRead == 0 {
            break;
          }
        }
        ghost var rest := file[filePosition..];
        assert readBuffer[..bytesRead] == rest[..bytesRead];
        if endOfFileReached {
          assert rest[..bytesRead] == rest;
          assert Chunks(rest, window) == [rest];
        } else {
          assert file[filePosition + bytesRead..] == rest[bytesRead..];
          assert Chunks(rest, window) == [rest[..bytesRead]] + Chunks(rest[bytesRead..], window);
        }
        chunks := chunks + [readBuffer[..bytesRead]];
        filePosition := filePosition + bytesRead;
      }
    }
  }

  // ---------------------------------------------------------------------
  // Lemmas

  /** The read window holds a whole number of strides: cut into records,
      a full window gives exactly `MaxBulkInsertCount` of them. */
  lemma WindowHoldsMaxBulkInsertCount()
    ensures MaxFileLengthToRead == Offset(MaxBulkInsertCount, FixedRowLength + 1)
    ensures StrideCount(MaxFileLengthToRead, FixedRowLength + 1) == MaxBulkInsertCount
  {
    OffsetIsProduct(MaxBulkInsertCount, FixedRowLength + 1);
    FullWindowStrides(MaxBulkInsertCount, FixedRowLength + 1);
  }

  /** The chunks give back the file from the starting position: no byte
      is read twice or skipped. */
  lemma {:induction false} ChunksTile(rest: seq<char>, window: nat)
    requires window > 0
    ensures Flatten(Chunks(rest, window)) == rest
    decreases |rest|
  {
    if |rest| >= window {
      var tail := Chunks(rest[window..], window);
      ChunksTile(rest[window..], window);
      assert ([rest[..window]] + tail)[1..] == tail;
      assert rest[..window] + rest[window..] == rest;
    }
  }

  /** There is one read per window the file's remainder occupies, the
      same count the slicer makes of records: `StrideCount`. */
  lemma {:induction false} ChunkCount(rest: seq<char>, window: nat)
    requires window > 0
    ensures |Chunks(rest, window)| == StrideCount(|rest|, window)
    decreases |rest|
  {
    if |rest| > window {
      ChunkCount(rest[window..], window);
    }
  }

  /** The row length and the field layout disagree: a stride of
      `FixedRowLength + 1` = 1801 characters ends before tag 193 starts
      (at 1809), so tags 193 to 200 of every record sliced from the read
      window decode to NaN. */
  lemma StrideCutsLastTags(text: string, k: int)
    requires |text| <= FixedRowLength + 1
    requires 193 <= k <= TagCount
    ensures TagValue(text, k) == NaN
  {
    TagPastEndIsNaN(text, k);
  }

  /** Tag 192 starts at 1800, so in a stride of 1801 characters its field
      is the stride's last character alone; when that is the newline (or
      any other whitespace) `trim` leaves "" and tag 192 is NaN as well. */
  lemma StrideCutsTag192(text: string)
    requires |text| <= FixedRowLength + 1
    requires |text| == FixedRowLength + 1 ==> IsJsWhitespace(text[FixedRowLength])
    ensures TagValue(text, 192) == NaN
  {
    var window := Substr(text, TagStart(192), TagLength);
    assert forall j :: 0 <= j < |window| ==> IsJsWhitespace(window[j]) by {
      if |text| == FixedRowLength + 1 {
        assert window == [text[FixedRowLength]];
      }
    }
    TrimSpec(window);
    assert TagField(text, 192) == [];
    assert NormalizeTag([]) == [];
  }
}
