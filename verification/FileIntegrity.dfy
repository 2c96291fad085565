/** What a checksummed file holds and when it reads, told by its bytes alone
    (overhead/Utils.cpp: CheckSum, Read_File, Write_File). */
module FileIntegrity {
  import opened Bytes
  import opened ChecksumFile

  /** All bytes added up. */
  function Total(s: seq<byte>): nat {
    if s == [] then 0 else s[0] + Total(s[1..])
  }

  lemma {:induction false} TotalAppend(s: seq<byte>, b: byte)
    ensures Total(s + [b]) == Total(s) + b
  {
    if s == [] {
      assert Total([b][1..]) == 0;
    } else {
      assert (s + [b])[1..] == s[1..] + [b];
      TotalAppend(s[1..], b);
    }
  }

  lemma {:induction false} CheckSumIs(s: seq<byte>)
    ensures ByteSum(s) == Total(s) && CheckSum(s) == Total(s) % 0x1_0000_0000
  {
    if s != [] {
      CheckSumIs(s[..|s| - 1]);
      TotalAppend(s[..|s| - 1], s[|s| - 1]);
      assert s == s[..|s| - 1] + [s[|s| - 1]];
    }
  }

  /** The first n bytes of a file are followed by their sum, least significant byte
      first. */
  predicate SumFollows(f: seq<byte>, n: nat) {
    n + 4 <= |f| &&
    f[n] as int + 256 * (f[n + 1] as int) + 65536 * (f[n + 2] as int) + 16777216 * (f[n + 3] as int) == Total(f[..n]) % 0x1_0000_0000
  }

  lemma SumFollowsExactly(f: seq<byte>, n: nat)
    requires n + 4 <= |f|
    ensures SumFollows(f, n) <==> CheckSum(f[..n]) == Word(f, n)
  {
    CheckSumIs(f[..n]);
    hide CheckSum;
  }

  /** A read succeeds exactly if the file is there, the bytes asked for - all but the last
      four, when the length is unknown - fit the buffer together with their sum, and
      their sum follows. It gives those bytes; otherwise none. */
  lemma ReadSucceedsExactly(file: File, len: nat, known: bool)
    ensures var (status, data) := ReadAs(file, len, known);
            && (status == NO_ERRORS <==>
                 && len <= 50000 && file.File? && (known || |file.bytes| >= 4)
                 && var n := if known then len else |file.bytes| - 4;
                    n + 4 <= 50000 && SumFollows(file.bytes, n))
            && (status == NO_ERRORS ==>
                 |data| + 4 <= |file.bytes| && data == file.bytes[..|data|] && |data| == if known then len else |file.bytes| - 4)
            && (status != NO_ERRORS ==> data == [])
  {
    if file.File? {
      var n := if known then len else |file.bytes| - 4;
      if 0 <= n && n + 4 <= |file.bytes| {
        SumFollowsExactly(file.bytes, n);
        assert file.bytes[..n + 4][..n] == file.bytes[..n] && Word(file.bytes[..n + 4], n) == Word(file.bytes, n);
      }
      hide SumFollows, CheckSum, Word;
    }
  }

  /** It writes past the buffer exactly if a file of more than 50000 bytes is read whole,
      or to more than 49996 of them. */
  lemma ReadOverrunsExactly(file: File, len: nat, known: bool)
    ensures ReadAs(file, len, known).0 == OVERRUN <==>
            len <= 50000 && file.File? && |file.bytes| > 50000 && (known ==> len + 4 > 50000)
  {
    hide CheckSum, Word;
  }

  /** One changed byte of a file written with its checksum is noticed whether the length
      is known or not. */
  lemma DamageNoticed(data: seq<byte>, i: nat, b: byte, known: bool)
    requires |data| + 4 <= 50000 && i < |Sealed(data)| && b != Sealed(data)[i]
    ensures ReadAs(File(Sealed(data)[i := b]), |data|, known) == (ERROR_OCCURED, [])
  {
    var t := Sealed(data)[i := b];
    DamagedSum(data, i, b);
    assert t[..|t|] == t;
    hide CheckSum, Word, Sealed;
  }

  // ----- writing -----

  /** The file can be opened in this mode. */
  predicate Opens(mode: Mode, file: File) {
    match mode
    case CreateNew => file.Missing?
    case CreateAlways | OpenAlways => true
    case OpenExisting | TruncateExisting => file.File?
  }

  /** What opening leaves of it. */
  function Opened(mode: Mode, file: File): seq<byte> {
    if file.File? && (mode == OpenExisting || mode == OpenAlways) then file.bytes else []
  }

  /** How many of its bytes stay in front of the data: with OPEN_EXISTING all but the old
      checksum. */
  function Kept(mode: Mode, file: File): nat {
    if mode == OpenExisting && file.File? && |file.bytes| >= 4 then |file.bytes| - 4 else 0
  }

  /** A write succeeds exactly if the file can be opened and what is kept, the data and the
      sum fit the buffer. The file then holds what was kept, the data, and the sum of
      both; with OPEN_ALWAYS whatever of a longer old file lies behind that. */
  lemma WriteSucceedsExactly(mode: Mode, file: File, data: seq<byte>)
    ensures var (status, after) := Write(mode, file, data);
            var k, n := Kept(mode, file), Kept(mode, file) + |data|;
            && (status == NO_ERRORS <==> Opens(mode, file) && n + 4 <= 50000)
            && (status == NO_ERRORS ==>
                 && after.File? && SumFollows(after.bytes, n)
                 && after.bytes[..k] == Opened(mode, file)[..k] && after.bytes[k..n] == data
                 && after.bytes[n + 4..] == if |Opened(mode, file)| > n + 4 then Opened(mode, file)[n + 4..] else [])
  {
    hide CheckSum, WordBytes, Word, SumFollows;
    var (status, after) := Write(mode, file, data);
    var k, old_ := Kept(mode, file), Opened(mode, file);
    if status == NO_ERRORS {
      var whole := old_[..k] + data;
      assert after == File(Overwrite(old_, Sealed(whole)));
      assert after.bytes[..|whole|] == whole;
      SealedSum(old_, whole);
    }
  }

  lemma SealedSum(old_: seq<byte>, whole: seq<byte>)
    ensures SumFollows(Overwrite(old_, Sealed(whole)), |whole|)
  {
    var f := Overwrite(old_, Sealed(whole));
    assert f[..|whole|] == whole && Word(f, |whole|) == Word(Sealed(whole), |whole|);
    SealedWord(whole);
    SumFollowsExactly(f, |whole|);
    hide CheckSum, Sealed, Overwrite, SumFollows;
  }

  /** A write that does not succeed leaves the file as opening it left it - or, when the
      data alone are too long or it cannot be opened, as it was. It overruns the buffer
      exactly if the data or the old file are at fault by four bytes, or the old file
      to be kept is itself too long. */
  lemma FailedWriteLeaves(mode: Mode, file: File, data: seq<byte>)
    requires Write(mode, file, data).0 != NO_ERRORS
    ensures Write(mode, file, data).1 == if |data| > 50000 || !Opens(mode, file) then file else File(Opened(mode, file))
    ensures Write(mode, file, data).0 == OVERRUN <==>
            && |data| <= 50000 && Opens(mode, file)
            && ((mode == OpenExisting && |file.bytes| > 50000) || Kept(mode, file) + |data| <= 50000)
  {
    hide CheckSum, WordBytes, Word;
  }
}
