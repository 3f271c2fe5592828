/** Byte-range requests (app/file/utils.py): the accepted subset of the
    single-range `Range: bytes=first-last` form of section 2.1 of RFC 7233,
    and the chunked reader that serves a range. */
module RangeRequests {
  import opened Types
  import opened Decimal

  const BytesPrefix: string := "bytes="

  /** An inclusive byte interval `first..last` of a file. */
  datatype ByteRange = ByteRange(first: nat, last: nat)

  /** The two groups `re.match(r'bytes=(\d+)-(\d*)', header)` captures. */
  datatype RangeMatch = RangeMatch(startDigits: string, endDigits: string)

  /** The text a match with these groups followed by `rest` reads. */
  function RangeText(m: RangeMatch, rest: string): string
  {
    BytesPrefix + m.startDigits + "-" + m.endDigits + rest
  }

  /** A match is well-shaped when both groups are digit runs, the first is
      non-empty, and neither could be extended by a digit of `rest`. */
  predicate WellShaped(m: RangeMatch, rest: string)
  {
    && |m.startDigits| > 0
    && AllDigits(m.startDigits)
    && AllDigits(m.endDigits)
    && (|rest| > 0 ==> !IsDigit(rest[0]))
  }

  /** `re.match(r'bytes=(\d+)-(\d*)', header)`: anchored at the start only,
      greedy digit groups, anything after the second group ignored. */
  function MatchRange(header: string): (m: Option<RangeMatch>)
    ensures m.Some? ==> |RangeText(m.value, "")| <= |header|
    ensures m.Some? ==>
      var rest := header[|RangeText(m.value, "")|..];
      header == RangeText(m.value, rest) && WellShaped(m.value, rest)
  {
    if |header| < |BytesPrefix| || header[..|BytesPrefix|] != BytesPrefix then None
    else
      var t := header[|BytesPrefix|..];
      var n1 := LeadingDigits(t);
      if n1 == 0 || n1 == |t| || t[n1] != '-' then None
      else
        var u := t[n1 + 1..];
        var n2 := LeadingDigits(u);
        var m := RangeMatch(t[..n1], u[..n2]);
        assert header == RangeText(m, u[n2..]);
        Some(m)
  }

  /** Every well-shaped header is matched, with exactly its own groups: the
      converse of `MatchRange`'s contract. */
  lemma MatchRangeComplete(m: RangeMatch, rest: string)
    requires WellShaped(m, rest)
    ensures MatchRange(RangeText(m, rest)) == Some(m)
  {
    var h := RangeText(m, rest);
    var t := h[|BytesPrefix|..];
    assert t == m.startDigits + ("-" + m.endDigits + rest);
    LeadingDigitsOf(m.startDigits, "-" + m.endDigits + rest);
    var u := t[|m.startDigits| + 1..];
    assert u == m.endDigits + rest;
    LeadingDigitsOf(m.endDigits, rest);
  }

  /** `parse_range_header(header, file_size)`: the matched start, the matched
      end or `file_size - 1` when the end group is empty, then the bounds
      check; every failure is a `ValueError`. */
  function ParseRangeHeader(header: string, fileSize: int): (r: Result<ByteRange>)
    ensures r.Ok? ==> 0 <= r.value.first <= r.value.last <= fileSize - 1
    ensures MatchRange(header).None? ==> r == Err(ValueError)
    ensures r.Err? ==> r.error == ValueError
    ensures r.Ok? ==> MatchRange(header).Some?
    ensures r.Ok? ==> r.value.first == DigitsValue(MatchRange(header).value.startDigits)
    ensures r.Ok? && MatchRange(header).value.endDigits == "" ==> r.value.last == fileSize - 1
    ensures r.Ok? && MatchRange(header).value.endDigits != "" ==>
      r.value.last == DigitsValue(MatchRange(header).value.endDigits)
  {
    match MatchRange(header)
    case None => Err(ValueError)
    case Some(m) =>
      var start := DigitsValue(m.startDigits);
      var end := if m.endDigits != "" then DigitsValue(m.endDigits) else fileSize - 1;
      if start >= fileSize || end >= fileSize || start > end then Err(ValueError)
      else Ok(ByteRange(start, end))
  }

  /** The acceptance rule in full, for any header of the matched shape:
      accepted exactly when `start <= end <= file_size - 1`. */
  lemma ParseRangeHeaderShape(m: RangeMatch, rest: string, fileSize: int)
    requires WellShaped(m, rest)
    ensures var start := DigitsValue(m.startDigits);
      var end := if m.endDigits == "" then fileSize - 1 else DigitsValue(m.endDigits);
      ParseRangeHeader(RangeText(m, rest), fileSize)
        == if start <= end < fileSize then Ok(ByteRange(start, end)) else Err(ValueError)
  {
    MatchRangeComplete(m, rest);
  }

  /** `Content-Range`-style spelling round-trips: `bytes=s-e` parses to
      `(s, e)` for every satisfiable range. */
  lemma ParseFormattedRange(s: nat, e: nat, fileSize: int)
    requires s <= e < fileSize
    ensures ParseRangeHeader(BytesPrefix + NatToString(s) + "-" + NatToString(e), fileSize)
      == Ok(ByteRange(s, e))
  {
    var m := RangeMatch(NatToString(s), NatToString(e));
    assert BytesPrefix + NatToString(s) + "-" + NatToString(e) == RangeText(m, "");
    ParseRangeHeaderShape(m, "", fileSize);
  }

  /** The open form `bytes=s-` reaches the last byte. */
  lemma ParseOpenRange(s: nat, fileSize: int)
    requires s < fileSize
    ensures ParseRangeHeader(BytesPrefix + NatToString(s) + "-", fileSize)
      == Ok(ByteRange(s, fileSize - 1))
  {
    var m := RangeMatch(NatToString(s), "");
    assert BytesPrefix + NatToString(s) + "-" == RangeText(m, "");
    ParseRangeHeaderShape(m, "", fileSize);
  }

  /** The suffix form `bytes=-N` of RFC 7233 is rejected. */
  lemma SuffixRangeRejected(tail: string, fileSize: int)
    ensures ParseRangeHeader(BytesPrefix + "-" + tail, fileSize) == Err(ValueError)
  {
    var h := BytesPrefix + "-" + tail;
    assert h[..|BytesPrefix|] == BytesPrefix;
    assert h[|BytesPrefix|..][0] == '-';
  }

  /** An end beyond the file is rejected, not clamped to the last byte as
      section 2.1 of RFC 7233 recommends. */
  lemma EndBeyondFileRejected(s: nat, e: nat, fileSize: int)
    requires s < fileSize <= e
    ensures ParseRangeHeader(BytesPrefix + NatToString(s) + "-" + NatToString(e), fileSize) == Err(ValueError)
  {
    var m := RangeMatch(NatToString(s), NatToString(e));
    assert BytesPrefix + NatToString(s) + "-" + NatToString(e) == RangeText(m, "");
    ParseRangeHeaderShape(m, "", fileSize);
  }

  /** Text after the matched groups is ignored: `bytes=0-4,7-9` reads as `bytes=0-4`. */
  lemma TrailingTextIgnored(m: RangeMatch, rest: string, fileSize: int)
    requires WellShaped(m, rest)
    ensures ParseRangeHeader(RangeText(m, rest), fileSize) == ParseRangeHeader(RangeText(m, ""), fileSize)
  {
    ParseRangeHeaderShape(m, rest, fileSize);
    ParseRangeHeaderShape(m, "", fileSize);
  }

  /** An empty file has no satisfiable range. */
  lemma EmptyFileUnsatisfiable(header: string)
    ensures ParseRangeHeader(header, 0).Err?
  {
  }

  /** `f.read(n)` after `f.seek(pos)`: up to `n` bytes, all remaining bytes
      when `n` is negative, nothing at or past the end of the file. */
  function ReadAt(content: seq<byte>, pos: nat, n: int): seq<byte>
  {
    if pos >= |content| then []
    else if n < 0 then content[pos..]
    else content[pos..Min(pos + n, |content|)]
  }

  /** The `end is None` branch of `create_file_iterator`: read `chunkSize`
      bytes at a time until a read comes back empty. */
  function ReadToEnd(content: seq<byte>, pos: nat, chunkSize: int): (chunks: seq<seq<byte>>)
    ensures chunkSize != 0 ==> Flatten(chunks) == content[Min(pos, |content|)..]
    ensures chunkSize == 0 ==> chunks == []
    ensures forall i :: 0 <= i < |chunks| ==> |chunks[i]| > 0
    ensures chunkSize > 0 ==> forall i :: 0 <= i < |chunks| ==> |chunks[i]| <= chunkSize
    decreases |content| - pos
  {
    var c := ReadAt(content, pos, chunkSize);
    if |c| == 0 then []
    else
      var rest := ReadToEnd(content, pos + |c|, chunkSize);
      assert ([c] + rest)[1..] == rest;
      [c] + rest
  }

  /** The `end` branch of `create_file_iterator`: read at most
      `min(chunkSize, remaining)` bytes at a time while bytes remain to be
      sent and the file has not ended. With a positive chunk size the chunks
      spell out exactly the requested window, cut short by end of file. */
  function ReadRange(content: seq<byte>, pos: nat, remaining: int, chunkSize: int): (chunks: seq<seq<byte>>)
    ensures forall i :: 0 <= i < |chunks| ==> |chunks[i]| > 0
    ensures remaining <= 0 || chunkSize == 0 ==> chunks == []
    ensures chunkSize > 0 ==> forall i :: 0 <= i < |chunks| ==> |chunks[i]| <= chunkSize
    decreases |content| - pos
  {
    if remaining <= 0 then []
    else
      var c := ReadAt(content, pos, Min(chunkSize, remaining));
      if |c| == 0 then []
      else
        var rest := ReadRange(content, pos + |c|, remaining - |c|, chunkSize);
        assert ([c] + rest)[1..] == rest;
        [c] + rest
  }

  /** With a positive chunk size the chunks of `ReadRange` spell out exactly
      the window `pos..pos+remaining`, cut short by the end of the file. */
  lemma {:induction false} ReadRangeContent(content: seq<byte>, pos: nat, remaining: int, chunkSize: int)
    requires chunkSize > 0 && remaining > 0
    ensures Flatten(ReadRange(content, pos, remaining, chunkSize))
      == content[Min(pos, |content|)..Min(pos + remaining, |content|)]
    decreases |content| - pos
  {
    if pos < |content| {
      var stop := ReadRangeUnfold(content, pos, remaining, chunkSize);
      if remaining - (stop - pos) > 0 {
        ReadRangeContent(content, stop, remaining - (stop - pos), chunkSize);
      }
      ReadRangeJoin(content, pos, stop, remaining, chunkSize);
    } else {
      assert ReadRange(content, pos, remaining, chunkSize) == [];
    }
  }

  /** The inductive step of `ReadRangeContent`: the first read's bytes
      followed by the rest of the window are the whole window. */
  lemma ReadRangeJoin(content: seq<byte>, pos: nat, stop: nat, remaining: int, chunkSize: int)
    requires chunkSize > 0 && remaining > 0 && pos < stop <= |content| && stop <= pos + remaining
    requires stop - pos < remaining ==> stop == |content| || stop == pos + chunkSize
    requires stop - pos >= remaining ==> stop == pos + remaining
    requires ReadRange(content, pos, remaining, chunkSize)
      == [content[pos..stop]] + ReadRange(content, stop, remaining - (stop - pos), chunkSize)
    requires remaining - (stop - pos) > 0 ==>
      Flatten(ReadRange(content, stop, remaining - (stop - pos), chunkSize))
        == content[Min(stop, |content|)..Min(stop + (remaining - (stop - pos)), |content|)]
    ensures Flatten(ReadRange(content, pos, remaining, chunkSize)) == content[pos..Min(pos + remaining, |content|)]
  {
    var c := content[pos..stop];
    var rest := ReadRange(content, stop, remaining - (stop - pos), chunkSize);
    FlattenCons(c, rest);
    var goal := Min(pos + remaining, |content|);
    if remaining - (stop - pos) > 0 {
      SliceSplit(content, pos, stop, goal);
    } else {
      assert rest == [] && stop == goal;
    }
  }

  /** One read of the window loop, from inside the file: it takes the
      bytes up to `stop` and the loop continues from there. */
  lemma ReadRangeUnfold(content: seq<byte>, pos: nat, remaining: int, chunkSize: int) returns (stop: nat)
    requires chunkSize > 0 && remaining > 0 && pos < |content|
    ensures pos < stop <= |content| && stop <= pos + remaining
    ensures stop == Min(pos + remaining, |content|) || stop == pos + chunkSize
    ensures stop - pos < remaining ==> stop == |content| || stop == pos + chunkSize
    ensures stop - pos >= remaining ==> stop == pos + remaining
    ensures ReadRange(content, pos, remaining, chunkSize)
      == [content[pos..stop]] + ReadRange(content, stop, remaining - (stop - pos), chunkSize)
  {
    stop := Min(pos + Min(chunkSize, remaining), |content|);
    assert ReadAt(content, pos, Min(chunkSize, remaining)) == content[pos..stop];
  }

  lemma SliceSplit(s: seq<byte>, a: nat, b: nat, c: nat)
    requires a <= b <= c <= |s|
    ensures s[a..c] == s[a..b] + s[b..c]
  {
  }

  /** With a negative chunk size the first read takes the whole rest of the
      file, however small the window: the window is not respected. */
  lemma NegativeChunkReadsToEnd(content: seq<byte>, pos: nat, remaining: int, chunkSize: int)
    requires chunkSize < 0 && 0 < remaining
    ensures Flatten(ReadRange(content, pos, remaining, chunkSize)) == content[Min(pos, |content|)..]
  {
    var c := ReadAt(content, pos, Min(chunkSize, remaining));
    if |c| > 0 {
      var rest := ReadRange(content, pos + |c|, remaining - |c|, chunkSize);
      assert pos + |c| == |content|;
      assert rest == [];
      assert ReadRange(content, pos, remaining, chunkSize) == [c] + rest;
      assert Flatten([c] + rest) == c + Flatten(rest);
    }
  }

  /** `create_file_iterator(path, start, end, chunk_size)` over a file whose
      bytes are `content`. */
  function CreateFileIterator(content: seq<byte>, start: nat, end: Option<int>, chunkSize: int)
    : (chunks: seq<seq<byte>>)
    ensures forall i :: 0 <= i < |chunks| ==> |chunks[i]| > 0
    ensures chunkSize > 0 ==> forall i :: 0 <= i < |chunks| ==> |chunks[i]| <= chunkSize
    ensures end.None? && chunkSize != 0 ==> Flatten(chunks) == content[Min(start, |content|)..]
    ensures end.Some? && end.value < start ==> chunks == []
  {
    match end
    case None => ReadToEnd(content, start, chunkSize)
    case Some(e) => ReadRange(content, start, e - start + 1, chunkSize)
  }

  /** A satisfiable range is served exactly: `last - first + 1` bytes equal
      to `content[first..last]`, in chunks of at most `chunkSize` bytes. */
  lemma RangeServedExactly(content: seq<byte>, r: ByteRange, chunkSize: int)
    requires r.first <= r.last < |content|
    requires chunkSize > 0
    ensures var chunks := CreateFileIterator(content, r.first, Some(r.last), chunkSize);
      && Flatten(chunks) == content[r.first..r.last + 1]
      && |Flatten(chunks)| == r.last - r.first + 1
      && (forall i :: 0 <= i < |chunks| ==> 0 < |chunks[i]| <= chunkSize)
  {
    ReadRangeContent(content, r.first, r.last - r.first + 1, chunkSize);
  }

  /** Whatever the window, a positive chunk size never sends more than
      `end - start + 1` bytes. */
  lemma RangeNeverOversends(content: seq<byte>, start: nat, end: int, chunkSize: int)
    requires chunkSize > 0
    ensures |Flatten(CreateFileIterator(content, start, Some(end), chunkSize))| <= if end - start + 1 > 0 then end - start + 1 else 0
  {
    if end - start + 1 > 0 {
      ReadRangeContent(content, start, end - start + 1, chunkSize);
    }
  }

  /** Parsing a header and serving the parsed range: the bytes sent are the
      slice the header names. */
  lemma ParsedRangeServed(content: seq<byte>, header: string, chunkSize: int)
    requires chunkSize > 0
    requires ParseRangeHeader(header, |content|).Ok?
    ensures var r := ParseRangeHeader(header, |content|).value;
      Flatten(CreateFileIterator(content, r.first, Some(r.last), chunkSize)) == content[r.first..r.last + 1]
  {
    var r := ParseRangeHeader(header, |content|).value;
    RangeServedExactly(content, r, chunkSize);
  }
}
