/** Checksummed files (overhead/Utils.cpp: CheckSum, Read_File, Write_File).

    A file is its data followed by a 32-bit byte sum. Both routines work through
    one shared buffer of exactly MAXFILEBUFFER bytes; a run that would write past
    its end has the outcome OVERRUN here.
*/
module ChecksumFile {
  import opened Bytes

  const MAXFILEBUFFER: nat := 50000
  const READ_LIMIT: nat := 0xFFFF
  const CSUM_SIZE: nat := 4

  datatype Mode = CreateNew | CreateAlways | OpenExisting | OpenAlways | TruncateExisting

  datatype Status = NO_ERRORS | ERROR_OCCURED | OVERRUN

  /** The file on disk. */
  datatype File = Missing | File(bytes: seq<byte>)

  // ----- the checksum -----

  function ByteSum(s: seq<byte>): nat {
    if s == [] then 0 else ByteSum(s[..|s| - 1]) + s[|s| - 1]
  }

  function CheckSum(s: seq<byte>): (cs: int)
    ensures 0 <= cs < TWO32
  {
    ByteSum(s) % TWO32
  }

  /** Data and its checksum, as they lie on disk. */
  function Sealed(data: seq<byte>): (f: seq<byte>)
    ensures |f| == |data| + CSUM_SIZE
  {
    data + WordBytes(CheckSum(data))
  }

  // ----- what the two routines do to a file -----

  /** CreateFile for writing. */
  function OpenForWrite(mode: Mode, file: File): File {
    match mode
    case CreateNew => if file.Missing? then File([]) else Missing
    case CreateAlways => File([])
    case OpenExisting => file
    case OpenAlways => if file.Missing? then File([]) else file
    case TruncateExisting => if file.Missing? then Missing else File([])
  }

  /** Bytes written from the start of a file replace what they cover. */
  function Overwrite(before: seq<byte>, written: seq<byte>): seq<byte> {
    written + if |before| > |written| then before[|written|..] else []
  }

  /** Write_File without its buffer. */
  function Write(mode: Mode, file: File, data: seq<byte>): (Status, File) {
    if |data| > MAXFILEBUFFER then (ERROR_OCCURED, file)
    else
      var target := OpenForWrite(mode, file);
      if target.Missing? then (ERROR_OCCURED, file)
      else
        var old_ := target.bytes;
        if mode == OpenExisting && |old_| > MAXFILEBUFFER then (OVERRUN, target)
        else
          var keep := if mode == OpenExisting && |old_| >= CSUM_SIZE then old_[..|old_| - CSUM_SIZE] else [];
          if |keep| + |data| > MAXFILEBUFFER then (ERROR_OCCURED, target)
          else if |keep| + |data| + CSUM_SIZE > MAXFILEBUFFER then (OVERRUN, target)
          else (NO_ERRORS, File(Overwrite(old_, Sealed(keep + data))))
  }

  /** Read_File with LEN_UNKNOWN: whatever the file holds. */
  function Read(file: File): (Status, seq<byte>) {
    if file.Missing? then (ERROR_OCCURED, [])
    else
      var got := file.bytes[..if |file.bytes| < READ_LIMIT then |file.bytes| else READ_LIMIT];
      if |got| > MAXFILEBUFFER then (OVERRUN, [])
      else if |got| < CSUM_SIZE then (ERROR_OCCURED, [])
      else
        var data := got[..|got| - CSUM_SIZE];
        if CheckSum(data) == Word(got, |data|) then (NO_ERRORS, data) else (ERROR_OCCURED, [])
  }

  /** Read_File in full: the caller's *len first, then with LEN_UNKNOWN the whole file,
      otherwise just *len bytes and a checksum. */
  function ReadAs(file: File, len: nat, known: bool): (Status, seq<byte>) {
    if len > MAXFILEBUFFER then (ERROR_OCCURED, [])
    else if !known then Read(file)
    else if file.Missing? then (ERROR_OCCURED, [])
    else
      var got := file.bytes[..if |file.bytes| < len + CSUM_SIZE then |file.bytes| else len + CSUM_SIZE];
      if |got| > MAXFILEBUFFER then (OVERRUN, [])
      else if |got| < len + CSUM_SIZE then (ERROR_OCCURED, [])
      else if CheckSum(got[..len]) == Word(got, len) then (NO_ERRORS, got[..len]) else (ERROR_OCCURED, [])
  }

  class FileIo {
    const fileBuf: array<byte>
    var file: File

    ghost predicate Valid()
      reads this
    {
      fileBuf.Length == MAXFILEBUFFER
    }

    constructor (onDisk: File)
      ensures Valid() && fresh(fileBuf) && file == onDisk
    {
      fileBuf := new byte[MAXFILEBUFFER];
      file := onDisk;
    }

    /** memcpy into the buffer. */
    method Copy(at: nat, data: seq<byte>)
      requires at + |data| <= fileBuf.Length
      modifies fileBuf
      ensures fileBuf[..at] == old(fileBuf[..at])
      ensures fileBuf[at..at + |data|] == data
    {
      for i := 0 to |data|
        invariant fileBuf[..at] == old(fileBuf[..at])
        invariant fileBuf[at..at + i] == data[..i]
      {
        fileBuf[at + i] := data[i];
      }
    }

    method BufferSum(len: nat) returns (cs: int)
      requires len <= fileBuf.Length
      ensures cs == CheckSum(fileBuf[..len])
    {
      cs := 0;
      for i := 0 to len
        invariant cs == CheckSum(fileBuf[..i])
      {
        assert fileBuf[..i + 1][..i] == fileBuf[..i];
        cs := (cs + fileBuf[i]) % TWO32;
      }
    }

    method WriteFile(mode: Mode, data: seq<byte>) returns (status: Status)
      requires Valid()
      modifies this, fileBuf
      ensures Valid() && (status, file) == Write(mode, old(file), data)
    {
      hide Sealed, Overwrite;
      if |data| > MAXFILEBUFFER {
        return ERROR_OCCURED;
      }
      var target := OpenForWrite(mode, file);
      if target.Missing? {
        return ERROR_OCCURED;
      }
      file := target;
      var len := |data|;
      ghost var keep: seq<byte> := [];
      if mode == OpenExisting {
        if |file.bytes| > MAXFILEBUFFER {
          return OVERRUN;
        }
        Copy(0, file.bytes);
        if |file.bytes| < CSUM_SIZE {
          Copy(0, data);
        } else {
          var existing := |file.bytes| - CSUM_SIZE;
          if existing + len > MAXFILEBUFFER {
            return ERROR_OCCURED;
          }
          assert fileBuf[..existing] == file.bytes[..existing];
          Copy(existing, data);
          len := len + existing;
          keep := file.bytes[..existing];
          assert fileBuf[..len] == fileBuf[..existing] + fileBuf[existing..len];
        }
      } else {
        Copy(0, data);
      }
      if len + CSUM_SIZE > MAXFILEBUFFER {
        return OVERRUN;
      }
      assert fileBuf[..len] == keep + data;
      Seal(len);
      file := File(Overwrite(file.bytes, fileBuf[..len + CSUM_SIZE]));
      return NO_ERRORS;
    }

    /** *psum = csum behind the first `len` bytes. */
    method Seal(len: nat)
      requires len + CSUM_SIZE <= fileBuf.Length
      modifies fileBuf
      ensures fileBuf[..len + CSUM_SIZE] == Sealed(old(fileBuf[..len]))
    {
      var cs := BufferSum(len);
      hide CheckSum, WordBytes;
      ghost var w := WordBytes(cs);
      Copy(len, WordBytes(cs));
      assert fileBuf[..len + CSUM_SIZE] == fileBuf[..len] + fileBuf[len..len + |w|];
    }

    method ReadFile(wanted: nat, known: bool) returns (status: Status, data: seq<byte>)
      requires Valid()
      modifies fileBuf
      ensures (status, data) == ReadAs(file, wanted, known)
    {
      if wanted > MAXFILEBUFFER || file.Missing? {
        return ERROR_OCCURED, [];
      }
      var limit := if known then wanted + CSUM_SIZE else READ_LIMIT;
      var count := if |file.bytes| < limit then |file.bytes| else limit;
      if count > MAXFILEBUFFER {
        return OVERRUN, [];
      }
      Copy(0, file.bytes[..count]);
      var len := wanted;
      if !known {
        if count < CSUM_SIZE {
          return ERROR_OCCURED, [];
        }
        len := count - CSUM_SIZE;
      }
      if count != len + CSUM_SIZE {
        return ERROR_OCCURED, [];
      }
      assert fileBuf[..count] == file.bytes[..count] && fileBuf[..len] == file.bytes[..count][..len];
      var cs := BufferSum(len);
      if cs == Compose(fileBuf[len], fileBuf[len + 1], fileBuf[len + 2], fileBuf[len + 3]) {
        return NO_ERRORS, fileBuf[..len];
      }
      return ERROR_OCCURED, [];
    }
  }

  // ----- round trips -----

  lemma SealedReads(data: seq<byte>)
    requires |data| + CSUM_SIZE <= MAXFILEBUFFER
    ensures Read(File(Sealed(data))) == (NO_ERRORS, data)
  {
    hide CheckSum, Compose, WordBytes;
    var s := Sealed(data);
    SealedWord(data);
    assert s[..|s|] == s && s[..|data|] == data;
  }

  /** Asked for the length written, the read gives back what was written; asked for
      more it fails. */
  lemma KnownLengthReads(data: seq<byte>, len: nat)
    requires |data| + CSUM_SIZE <= MAXFILEBUFFER
    ensures len == |data| ==> ReadAs(File(Sealed(data)), len, true) == (NO_ERRORS, data)
    ensures len > |data| ==> ReadAs(File(Sealed(data)), len, true) == (ERROR_OCCURED, [])
  {
    hide CheckSum, Compose, WordBytes;
    var s := Sealed(data);
    SealedWord(data);
    assert s[..|s|] == s && s[..|data|] == data;
  }

  /** One CREATE_ALWAYS write and any number of OPEN_EXISTING appends. */
  function WriteAll(file: File, data: seq<byte>, appends: seq<seq<byte>>): (Status, File)
    decreases |appends|
  {
    if appends == [] then Write(CreateAlways, file, data)
    else
      var (status, f) := WriteAll(file, data, appends[..|appends| - 1]);
      if status != NO_ERRORS then (status, f) else Write(OpenExisting, f, appends[|appends| - 1])
  }

  function Whole(data: seq<byte>, appends: seq<seq<byte>>): seq<byte> {
    if appends == [] then data else Whole(data, appends[..|appends| - 1]) + appends[|appends| - 1]
  }

  /** Exactly the totals that leave room for the checksum succeed, and then the
      file reads back as the concatenation. The four totals just below the stated
      limit MAXFILEBUFFER do not fit the buffer. */
  lemma {:induction false} AppendsReadBack(file: File, data: seq<byte>, appends: seq<seq<byte>>)
    ensures WriteAll(file, data, appends).0 == NO_ERRORS <==> |Whole(data, appends)| + CSUM_SIZE <= MAXFILEBUFFER
    ensures WriteAll(file, data, appends).0 == NO_ERRORS ==>
              && WriteAll(file, data, appends).1 == File(Sealed(Whole(data, appends)))
              && Read(WriteAll(file, data, appends).1) == (NO_ERRORS, Whole(data, appends))
    decreases |appends|
  {
    hide CheckSum, WordBytes, Word, Compose;
    if |Whole(data, appends)| + CSUM_SIZE <= MAXFILEBUFFER {
      SealedReads(Whole(data, appends));
    }
    if appends == [] {
      assert [] + data == data && Overwrite([], Sealed(data)) == Sealed(data);
    } else {
      var fewer := appends[..|appends| - 1];
      AppendsReadBack(file, data, fewer);
      if |Whole(data, fewer)| + CSUM_SIZE <= MAXFILEBUFFER {
        AppendOne(Whole(data, fewer), appends[|appends| - 1]);
      }
    }
  }

  lemma AppendOne(before: seq<byte>, data: seq<byte>)
    requires |before| + CSUM_SIZE <= MAXFILEBUFFER
    ensures Write(OpenExisting, File(Sealed(before)), data).0 == NO_ERRORS <==> |before| + |data| + CSUM_SIZE <= MAXFILEBUFFER
    ensures |before| + |data| + CSUM_SIZE <= MAXFILEBUFFER ==>
              Write(OpenExisting, File(Sealed(before)), data) == (NO_ERRORS, File(Sealed(before + data)))
  {
    hide CheckSum, WordBytes, Word, Compose;
    assert Sealed(before)[..|before|] == before;
    var sealed := Sealed(before + data);
    assert Overwrite(Sealed(before), sealed) == sealed;
  }

  // ----- damage -----

  lemma {:induction false} ByteSumUpdate(s: seq<byte>, i: nat, b: byte)
    requires i < |s|
    ensures ByteSum(s[i := b]) == ByteSum(s) - s[i] + b
  {
    var last := |s| - 1;
    if i == last {
      assert s[i := b][..last] == s[..last];
    } else {
      assert s[i := b][..last] == s[..last][i := b];
      ByteSumUpdate(s[..last], i, b);
    }
  }

  lemma CheckSumSeesOneByte(s: seq<byte>, i: nat, b: byte)
    requires i < |s| && b != s[i]
    ensures CheckSum(s[i := b]) != CheckSum(s)
  {
    ByteSumUpdate(s, i, b);
    var x, y := ByteSum(s[i := b]), ByteSum(s);
    if x % TWO32 == y % TWO32 {
      SameRemainder(x, y);
    }
  }

  lemma SameRemainder(x: nat, y: nat)
    requires x % TWO32 == y % TWO32 && -256 < x - y < 256
    ensures x == y
  {
    assert x - y == (x / TWO32 - y / TWO32) * TWO32;
  }

  /** Any single changed byte of a readable file, in the data or in the checksum,
      makes the read fail. */
  lemma OneByteDetected(data: seq<byte>, i: nat, b: byte)
    requires |data| + CSUM_SIZE <= MAXFILEBUFFER
    requires i < |Sealed(data)| && b != Sealed(data)[i]
    ensures Read(File(Sealed(data)[i := b])).0 == ERROR_OCCURED
  {
    var t := Sealed(data)[i := b];
    assert t[..|t|] == t;
    DamagedSum(data, i, b);
    hide CheckSum, Word, Sealed;
  }

  lemma DamagedSum(data: seq<byte>, i: nat, b: byte)
    requires i < |Sealed(data)| && b != Sealed(data)[i]
    ensures var t := Sealed(data)[i := b]; CheckSum(t[..|data|]) != Word(t, |data|)
  {
    hide CheckSum, Compose, WordBytes;
    var n := |data|;
    var s := Sealed(data);
    var t := s[i := b];
    SealedWord(data);
    if i < n {
      assert t[..n] == data[i := b];
      CheckSumSeesOneByte(data, i, b);
      assert Word(t, n) == Word(s, n);
    } else {
      assert t[..n] == data;
      WordSeesOneByte(s, n, i, b);
    }
  }

  lemma SealedWord(data: seq<byte>)
    ensures Word(Sealed(data), |data|) == CheckSum(data)
  {
    hide CheckSum, Compose;
    var s, w := Sealed(data), WordBytes(CheckSum(data));
    assert forall k :: 0 <= k < 4 ==> s[|data| + k] == w[k];
    assert Word(s, |data|) == Word(w, 0);
  }

  lemma WordSeesOneByte(s: seq<byte>, off: nat, i: nat, b: byte)
    requires off + 4 <= |s| && off <= i < off + 4 && b != s[i]
    ensures Word(s[i := b], off) != Word(s, off)
  {
  }

  /** An append does not look at the old checksum: it turns a damaged file of
      fitting size into one that reads back, damage included. */
  lemma AppendSealsDamage(bytes: seq<byte>, data: seq<byte>)
    requires CSUM_SIZE <= |bytes| && |bytes| + |data| <= MAXFILEBUFFER
    ensures var (status, f) := Write(OpenExisting, File(bytes), data);
            status == NO_ERRORS && Read(f) == (NO_ERRORS, bytes[..|bytes| - CSUM_SIZE] + data)
  {
    hide CheckSum, WordBytes, Word, Compose;
    var whole := bytes[..|bytes| - CSUM_SIZE] + data;
    assert Overwrite(bytes, Sealed(whole)) == Sealed(whole);
    SealedReads(whole);
  }
}
