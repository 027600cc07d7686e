/**
 * app/models/marshal.go: `MarshalReader`, a reader that is read once into an
 * owned byte slice and from then on serves a fresh reader over those bytes,
 * and `backupReader`, which forks one reader into two independent ones.
 */
module Marshal {
  import opened Wrappers
  import opened Mime

  /** The step by which `ioutil.ReadAll` grows its buffer (`bytes.MinRead`). */
  const MinRead: nat := 512

  /** What one `Read` call reports beside the bytes it delivered. */
  datatype ReadStatus = Filled | EOF | ReadFailed

  /**
   * An `io.Reader` over a fixed run of bytes: a `bytes.Reader`, or any source
   * a `MarshalReader` wraps. A `failing` source ends with a read error where a
   * healthy one reports `io.EOF`.
   */
  class ByteReader {
    const bytes: seq<byte>
    const failing: bool
    var pos: nat

    ghost predicate Valid()
      reads this
    {
      pos <= |bytes|
    }

    /** The bytes not yet read. */
    function Remaining(): seq<byte>
      reads this
      requires Valid()
    {
      bytes[pos..]
    }

    /** `bytes.NewReader(bytes)` when `failing` is false. */
    constructor (bytes: seq<byte>, failing: bool)
      ensures Valid() && this.bytes == bytes && this.failing == failing && pos == 0
    {
      this.bytes := bytes;
      this.failing := failing;
      pos := 0;
    }

    /** `Read(p)` with `len(p) == n`: up to n of the remaining bytes, or the end of the stream. */
    method Read(n: nat) returns (chunk: seq<byte>, status: ReadStatus)
      requires Valid()
      modifies this
      ensures Valid()
      ensures chunk + Remaining() == old(Remaining())
      ensures old(pos) == |bytes| ==> chunk == [] && status == (if failing then ReadFailed else EOF)
      ensures old(pos) < |bytes| ==> status == Filled && |chunk| == (if n < |bytes| - old(pos) then n else |bytes| - old(pos))
    {
      if pos == |bytes| {
        return [], if failing then ReadFailed else EOF;
      }
      var k := if n < |bytes| - pos then n else |bytes| - pos;
      chunk := bytes[pos..pos + k];
      pos := pos + k;
      status := Filled;
    }
  }

  /** `ioutil.ReadAll`: everything left in `r`, and the error that ended it, if any. */
  method ReadAll(r: ByteReader) returns (data: seq<byte>, err: Option<string>)
    requires r.Valid()
    modifies r
    ensures r.Valid() && r.pos == |r.bytes|
    ensures data == old(r.Remaining())
    ensures err.Some? <==> r.failing
  {
    data := [];
    while true
      invariant r.Valid()
      invariant data + r.Remaining() == old(r.Remaining())
      decreases |r.bytes| - r.pos
    {
      var chunk, status := r.Read(MinRead);
      data := data + chunk;
      if status == EOF {
        return data, None;
      }
      if status == ReadFailed {
        return data, Some("read error");
      }
    }
  }

  class MarshalReader {
    var reader: ByteReader
    /** `data`: None while the slice is nil, that is before the first read-through. */
    var data: Option<seq<byte>>
    var marshalAsBytes: bool

    ghost predicate Valid()
      reads this, reader
    {
      reader.Valid()
    }

    /** The state `NewMarshalReader` leaves: a healthy reader at the start of `data`. */
    ghost predicate AtStart()
      reads this, reader
    {
      Valid() && data == Some(reader.bytes) && reader.pos == 0 && !reader.failing
    }

    /** `&MarshalReader{reader: r}`: a reader whose data has not been read yet. */
    constructor Wrap(r: ByteReader)
      requires r.Valid()
      ensures Valid() && reader == r && data == None && !marshalAsBytes
    {
      reader := r;
      data := None;
      marshalAsBytes := false;
    }

    /** The literal built by `NewMarshalReader`. */
    constructor OverBytes(d: seq<byte>)
      ensures AtStart() && fresh(reader) && data == Some(d) && marshalAsBytes
    {
      reader := new ByteReader(d, false);
      data := Some(d);
      marshalAsBytes := true;
    }

    /**
     * `Data`: on the first call, read the reader through into `data` (kept
     * even when the read fails) and, on success, continue from a fresh reader
     * over those bytes; afterwards, return `data` without touching the reader.
     */
    method Data() returns (r: Result<seq<byte>>)
      requires Valid()
      modifies this, reader
      ensures Valid() && data.Some? && marshalAsBytes == old(marshalAsBytes)
      ensures old(data).Some? ==>
                && r == Ok(old(data).value) && data == old(data)
                && reader == old(reader) && reader.pos == old(reader.pos)
      ensures old(data).None? && !old(reader).failing ==>
                && r == Ok(old(reader.Remaining())) && data == Some(r.value)
                && fresh(reader) && AtStart()
      ensures old(data).None? && old(reader).failing ==>
                && r.Err? && data == Some(old(reader.Remaining()))
                && reader == old(reader) && reader.pos == |reader.bytes|
    {
      if data.None? {
        var d, err := ReadAll(reader);
        data := Some(d);
        if err.Some? {
          return Err(err.value);
        }
        reader := new ByteReader(d, false);
      }
      return Ok(data.value);
    }

    /** `Read` delegates to whichever reader is current. */
    method Read(n: nat) returns (chunk: seq<byte>, status: ReadStatus)
      requires Valid()
      modifies reader
      ensures Valid()
      ensures chunk + reader.Remaining() == old(reader.Remaining())
      ensures old(reader.pos) == |reader.bytes| ==> chunk == [] && status == (if reader.failing then ReadFailed else EOF)
      ensures old(reader.pos) < |reader.bytes| ==>
                && status == Filled
                && |chunk| == (if n < |reader.bytes| - old(reader.pos) then n else |reader.bytes| - old(reader.pos))
    {
      chunk, status := reader.Read(n);
    }
  }

  /** `NewMarshalReader`: read `r` through (a read error is dropped) and serve those bytes. */
  method NewMarshalReader(r: ByteReader) returns (mr: MarshalReader)
    requires r.Valid()
    modifies r
    ensures fresh(mr) && fresh(mr.reader) && mr.AtStart() && mr.marshalAsBytes
    ensures mr.data == Some(old(r.Remaining()))
    ensures r.pos == |r.bytes|
  {
    var d, _ := ReadAll(r);
    mr := new MarshalReader.OverBytes(d);
  }

  /**
   * `backupReader`: read the input through once (a read error is dropped)
   * and return two readers over those bytes, each with its own position.
   */
  method BackupReader(inDanger: ByteReader) returns (useInstead: MarshalReader, backup: MarshalReader)
    requires inDanger.Valid()
    modifies inDanger
    ensures fresh(useInstead) && fresh(useInstead.reader) && fresh(backup) && fresh(backup.reader)
    ensures useInstead != backup && useInstead.reader != backup.reader
    ensures useInstead.AtStart() && backup.AtStart()
    ensures useInstead.data == backup.data == Some(old(inDanger.Remaining()))
  {
    var d, _ := ReadAll(inDanger);
    var first := new ByteReader(d, false);
    useInstead := NewMarshalReader(first);
    var second := new ByteReader(d, false);
    backup := NewMarshalReader(second);
  }

  /** Reads a `MarshalReader` until `Read` reports the end; from `AtStart` that is exactly `data`. */
  method ReadToEnd(mr: MarshalReader) returns (all: seq<byte>, failed: bool)
    requires mr.Valid()
    modifies mr.reader
    ensures mr.Valid() && mr.reader.pos == |mr.reader.bytes|
    ensures all == old(mr.reader.Remaining())
    ensures failed == mr.reader.failing
    ensures old(mr.AtStart()) ==> all == mr.data.value
  {
    all := [];
    while true
      invariant mr.Valid()
      invariant all + mr.reader.Remaining() == old(mr.reader.Remaining())
      decreases |mr.reader.bytes| - mr.reader.pos
    {
      var chunk, status := mr.Read(MinRead);
      all := all + chunk;
      if status != Filled {
        return all, status == ReadFailed;
      }
    }
  }

  /**
   * The two readers of `backupReader` are independent: reading one through
   * leaves the other where it was, and both yield the input's bytes.
   */
  method BackupReadersIndependent(input: ByteReader) returns (first: seq<byte>, second: seq<byte>)
    requires input.Valid()
    modifies input
    ensures first == second == old(input.Remaining())
  {
    var useInstead, backup := BackupReader(input);
    var failed;
    first, failed := ReadToEnd(useInstead);
    assert backup.AtStart();
    second, failed := ReadToEnd(backup);
  }
}
