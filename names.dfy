/** The file names under which a storage node keeps its chunks (StorageService.generateFilename)
    and the two ways of reading a name back: the parser of `getInventory` as the Java code
    writes it, and a parser that undoes `generateFilename` for every blob id. */
module ChunkNames {
  import opened Common

  const INFIX: string := "_chunk_"
  const SUFFIX: string := ".bin"

  /** The range of a Java `int`. */
  const INT_MIN: int := -0x8000_0000
  const INT_MAX: int := 0x7fff_ffff

  // ---------------------------------------------------------------------------------------
  // Decimal numerals: Integer.toString and Integer.parseInt
  // ---------------------------------------------------------------------------------------

  /** The ASCII digits, the only characters the pattern `\d` accepts. */
  predicate IsDigit(c: char) {
    '0' <= c <= '9'
  }

  predicate AllDigits(s: string) {
    forall i :: 0 <= i < |s| ==> IsDigit(s[i])
  }

  function DigitChar(d: int): (c: char)
    requires 0 <= d < 10
    ensures IsDigit(c) && c as int - '0' as int == d
  {
    ('0' as int + d) as char
  }

  /** The value of a string of ASCII digits. */
  function DigitsValue(s: string): nat
    requires AllDigits(s)
  {
    if s == [] then 0 else 10 * DigitsValue(s[..|s| - 1]) + (s[|s| - 1] as int - '0' as int)
  }

  /** Integer.toString of a non-negative number: no sign and no leading zero. */
  function NatToString(n: nat): string
    decreases n
  {
    if n < 10 then [DigitChar(n)] else NatToString(n / 10) + [DigitChar(n % 10)]
  }

  /** Integer.toString, which is also how `+` turns the chunk index into text. */
  function IntToString(i: int): string {
    if i < 0 then "-" + NatToString(-i) else NatToString(i)
  }

  /** Integer.parseInt in radix 10: an optional sign, at least one digit, a value that fits an
      `int`; anything else raises NumberFormatException, here None. */
  function ParseInt(s: string): Option<int> {
    if |s| == 0 then None
    else
      var digits := if s[0] == '-' || s[0] == '+' then s[1..] else s;
      if |digits| == 0 || !AllDigits(digits) then None
      else
        var v: int := if s[0] == '-' then -(DigitsValue(digits) as int) else DigitsValue(digits);
        if INT_MIN <= v <= INT_MAX then Some(v) else None
  }

  /** The decimal text of a number is a non-empty digit string whose value is that number. */
  lemma {:induction false} NatToStringDigits(n: nat)
    ensures var s := NatToString(n); |s| >= 1 && AllDigits(s) && DigitsValue(s) == n
  {
    if n >= 10 {
      NatToStringDigits(n / 10);
      var s := NatToString(n);
      assert s[..|s| - 1] == NatToString(n / 10);
    }
  }

  /** parseInt undoes toString on the whole range of `int`. */
  lemma ParseIntToString(i: int)
    requires INT_MIN <= i <= INT_MAX
    ensures ParseInt(IntToString(i)) == Some(i)
  {
    var s := IntToString(i);
    if i < 0 {
      NatToStringDigits(-i);
      assert s[1..] == NatToString(-i);
    } else {
      NatToStringDigits(i);
    }
  }

  // ---------------------------------------------------------------------------------------
  // Substrings: String.indexOf, String.split and String.replace
  // ---------------------------------------------------------------------------------------

  predicate OccursAt(s: string, t: string, j: int) {
    0 <= j && j + |t| <= |s| && s[j..j + |t|] == t
  }

  ghost predicate Contains(s: string, t: string) {
    exists j :: OccursAt(s, t, j)
  }

  predicate EndsWith(s: string, t: string) {
    |t| <= |s| && s[|s| - |t|..] == t
  }

  lemma SliceOfTail(s: string, j: int, n: nat)
    requires 1 <= j && j + n <= |s|
    ensures s[1..][j - 1..j - 1 + n] == s[j..j + n]
  {
    var a, b := s[1..][j - 1..j - 1 + n], s[j..j + n];
    forall m | 0 <= m < n ensures a[m] == b[m] {
      assert a[m] == s[1..][j - 1 + m] == s[j + m];
    }
  }

  /** The leftmost occurrence of `t` in `s`. */
  function IndexOf(s: string, t: string): (r: Option<nat>)
    requires |t| > 0
    ensures r.Some? ==> OccursAt(s, t, r.value) && forall j :: 0 <= j < r.value ==> !OccursAt(s, t, j)
    ensures r.None? ==> forall j :: !OccursAt(s, t, j)
    decreases |s|
  {
    if |s| < |t| then None
    else if s[..|t|] == t then Some(0)
    else
      var rest := IndexOf(s[1..], t);
      assert forall j :: 1 <= j ==> (OccursAt(s, t, j) <==> OccursAt(s[1..], t, j - 1)) by {
        forall j | 1 <= j ensures OccursAt(s, t, j) <==> OccursAt(s[1..], t, j - 1) {
          if j + |t| <= |s| { SliceOfTail(s, j, |t|); }
        }
      }
      match rest
      case None => None
      case Some(j) => Some(j + 1)
  }

  /** The pieces of `s` between the occurrences of `t`, found left to right without overlap. */
  function SplitAll(s: string, t: string): (r: seq<string>)
    requires |t| > 0
    ensures |r| >= 1
    decreases |s|
  {
    match IndexOf(s, t)
    case None => [s]
    case Some(i) => [s[..i]] + SplitAll(s[i + |t|..], t)
  }

  function DropTrailingEmpty(parts: seq<string>): seq<string> {
    if parts == [] || parts[|parts| - 1] != "" then parts else DropTrailingEmpty(parts[..|parts| - 1])
  }

  /** String.split with a literal separator and no limit: a string without the separator is
      its own only piece; otherwise the trailing empty pieces are dropped. */
  function Split(s: string, t: string): seq<string>
    requires |t| > 0
  {
    if IndexOf(s, t).None? then [s] else DropTrailingEmpty(SplitAll(s, t))
  }

  /** String.replace(t, ""): every occurrence, left to right without overlap, removed. */
  function RemoveAll(s: string, t: string): string
    requires |t| > 0
    decreases |s|
  {
    match IndexOf(s, t)
    case None => s
    case Some(i) => s[..i] + RemoveAll(s[i + |t|..], t)
  }

  // ---------------------------------------------------------------------------------------
  // The name of a chunk file and the inventory pattern
  // ---------------------------------------------------------------------------------------

  /** generateFilename: `pdfId + "_chunk_" + chunkIndex + ".bin"`. */
  function GenerateFilename(pdfId: PdfId, chunkIndex: int): string {
    pdfId + INFIX + IntToString(chunkIndex) + SUFFIX
  }

  /** The characters that `.` of a Java pattern does not match. */
  predicate IsLineTerminator(c: char) {
    c == '\n' || c == '\r' || c == '\U{85}' || c == '\U{2028}' || c == '\U{2029}'
  }

  predicate NoLineTerminators(s: string) {
    forall i :: 0 <= i < |s| ==> !IsLineTerminator(s[i])
  }

  /** The length of the longest run of digits that ends `s`. */
  function TrailingDigits(s: string): (k: nat)
    ensures k <= |s|
    ensures forall j :: |s| - k <= j < |s| ==> IsDigit(s[j])
    ensures k < |s| ==> !IsDigit(s[|s| - k - 1])
  {
    if |s| == 0 || !IsDigit(s[|s| - 1]) then 0
    else
      var k := TrailingDigits(s[..|s| - 1]);
      assert forall j :: 0 <= j < |s| - 1 ==> s[..|s| - 1][j] == s[j];
      k + 1
  }

  /** `filename.matches(".*_chunk_\\d+\\.bin")`, decided from the end of the name: `.bin`, the
      digits before it, `_chunk_` before the digits, and no line terminator in front. */
  predicate MatchesChunkPattern(name: string) {
    && EndsWith(name, SUFFIX)
    && var s := name[..|name| - |SUFFIX|];
       var k := TrailingDigits(s);
       && k >= 1
       && EndsWith(s[..|s| - k], INFIX)
       && NoLineTerminators(s[..|s| - k - |INFIX|])
  }

  /** The text in front of `_chunk_` of a matching name. */
  function PatternPrefix(name: string): string
    requires MatchesChunkPattern(name)
  {
    var s := name[..|name| - |SUFFIX|];
    s[..|s| - TrailingDigits(s) - |INFIX|]
  }

  /** The digits between `_chunk_` and `.bin` of a matching name. */
  function PatternDigits(name: string): (d: string)
    requires MatchesChunkPattern(name)
    ensures |d| >= 1 && AllDigits(d)
  {
    var s := name[..|name| - |SUFFIX|];
    s[|s| - TrailingDigits(s)..]
  }

  /** The pattern's own reading: some text, `_chunk_`, one or more digits, `.bin`. */
  predicate PatternParts(name: string, prefix: string, digits: string) {
    && name == prefix + INFIX + digits + SUFFIX
    && NoLineTerminators(prefix)
    && |digits| >= 1
    && AllDigits(digits)
  }

  lemma {:induction false} TrailingDigitsAppend(u: string, d: string)
    requires AllDigits(d) && (|u| == 0 || !IsDigit(u[|u| - 1]))
    ensures TrailingDigits(u + d) == |d|
  {
    if d != [] {
      var d' := d[..|d| - 1];
      assert (u + d)[..|u + d| - 1] == u + d';
      TrailingDigitsAppend(u, d');
    }
  }

  /** A name the end-first decision accepts splits as the pattern reads it. */
  lemma MatchesGivesParts(name: string)
    requires MatchesChunkPattern(name)
    ensures PatternParts(name, PatternPrefix(name), PatternDigits(name))
  {
    var s := name[..|name| - |SUFFIX|];
    var k := TrailingDigits(s);
    var prefix, digits := PatternPrefix(name), PatternDigits(name);
    assert s[..|s| - k] == prefix + INFIX;
    assert s == s[..|s| - k] + digits;
    assert name == s + SUFFIX;
  }

  /** A name split as the pattern reads it is accepted by the end-first decision, and its
      parts are the ones that decision finds. */
  lemma PartsGiveMatch(name: string, prefix: string, digits: string)
    requires PatternParts(name, prefix, digits)
    ensures MatchesChunkPattern(name)
    ensures PatternPrefix(name) == prefix && PatternDigits(name) == digits
  {
    var s := name[..|name| - |SUFFIX|];
    assert s == (prefix + INFIX) + digits;
    TrailingDigitsAppend(prefix + INFIX, digits);
    assert s[..|s| - |digits|] == prefix + INFIX;
    assert s[..|s| - |digits| - |INFIX|] == prefix;
  }

  /** The end-first decision agrees with the pattern in both directions. */
  lemma MatchesIffParts(name: string)
    ensures MatchesChunkPattern(name) <==> exists prefix, digits :: PatternParts(name, prefix, digits)
  {
    if MatchesChunkPattern(name) {
      MatchesGivesParts(name);
    }
    if exists prefix, digits :: PatternParts(name, prefix, digits) {
      var prefix, digits :| PatternParts(name, prefix, digits);
      PartsGiveMatch(name, prefix, digits);
    }
  }

  // ---------------------------------------------------------------------------------------
  // Reading a name back
  // ---------------------------------------------------------------------------------------

  /** The parser of `getInventory` as written: split at every `_chunk_`, take the first piece
      as the blob id and the second, with `.bin` removed, as the index; a missing piece or a
      piece that is not an `int` makes the file skipped (None). */
  function ParseAsWritten(name: string): (r: Option<ChunkKey>)
  {
    if !MatchesChunkPattern(name) then None
    else
      var parts := Split(name, INFIX);
      if |parts| < 2 then None
      else
        match ParseInt(RemoveAll(parts[1], SUFFIX))
        case None => None
        case Some(n) => Some(ChunkKey(parts[0], n))
  }

  /** The parser that undoes `generateFilename`: the index is the digit run in front of `.bin`,
      the blob id everything in front of the `_chunk_` that precedes it. */
  function ParseChunkName(name: string): (r: Option<ChunkKey>)
    ensures r.Some? <==> MatchesChunkPattern(name) && DigitsValue(PatternDigits(name)) <= INT_MAX
    ensures r.Some? ==> WellFormedKey(r.value)
  {
    if !MatchesChunkPattern(name) then None
    else
      match ParseInt(PatternDigits(name))
      case None => None
      case Some(n) => Some(ChunkKey(PatternPrefix(name), n))
  }

  /** The keys whose names the inventory can report: a blob id without line terminators (which
      the pattern's `.` refuses) and an index in the non-negative range of `int`. */
  predicate WellFormedKey(k: ChunkKey) {
    NoLineTerminators(k.pdfId) && 0 <= k.chunkIndex <= INT_MAX
  }

  function FileName(k: ChunkKey): string {
    GenerateFilename(k.pdfId, k.chunkIndex)
  }

  /** The name of a key splits as the pattern reads it exactly when its index is non-negative:
      a file of a negative index never shows in the inventory. */
  lemma GeneratedNameMatches(pdfId: PdfId, chunkIndex: int)
    requires NoLineTerminators(pdfId)
    ensures MatchesChunkPattern(GenerateFilename(pdfId, chunkIndex)) <==> chunkIndex >= 0
  {
    var name := GenerateFilename(pdfId, chunkIndex);
    if chunkIndex >= 0 {
      NatToStringDigits(chunkIndex);
      PartsGiveMatch(name, pdfId, NatToString(chunkIndex));
    } else {
      var d := NatToString(-chunkIndex);
      NatToStringDigits(-chunkIndex);
      var u := pdfId + INFIX + "-";
      assert name == u + d + SUFFIX;
      var s := name[..|name| - |SUFFIX|];
      assert s == u + d;
      TrailingDigitsAppend(u, d);
      assert s[..|s| - |d|] == u;
      assert u[|u| - 1] != INFIX[|INFIX| - 1];
    }
  }

  /** Reading back the name of a well-formed key gives the key. */
  lemma ChunkNameRoundTrip(k: ChunkKey)
    requires WellFormedKey(k)
    ensures ParseChunkName(FileName(k)) == Some(k)
  {
    NatToStringDigits(k.chunkIndex);
    PartsGiveMatch(FileName(k), k.pdfId, NatToString(k.chunkIndex));
    ParseIntToString(k.chunkIndex);
  }

  /** Distinct well-formed keys are stored under distinct names. */
  lemma FileNameInjective(k1: ChunkKey, k2: ChunkKey)
    requires WellFormedKey(k1) && WellFormedKey(k2) && FileName(k1) == FileName(k2)
    ensures k1 == k2
  {
    ChunkNameRoundTrip(k1);
    ChunkNameRoundTrip(k2);
  }

  /** The leftmost `_chunk_` of `p + "_chunk_" + rest` is the one after `p` when `p` holds no
      `_chunk_` and does not end in `_chunk` (whose `_` could start an earlier match). */
  lemma FirstInfix(p: string, rest: string)
    requires !Contains(p, INFIX) && !EndsWith(p, "_chunk")
    ensures IndexOf(p + INFIX + rest, INFIX) == Some(|p|)
  {
    var s := p + INFIX + rest;
    assert s[|p|..|p| + |INFIX|] == INFIX;
    assert OccursAt(s, INFIX, |p|);
    assert s[|p|] == INFIX[0] == '_';
    forall j | 0 <= j < |p| ensures !OccursAt(s, INFIX, j) {
      if j + |INFIX| <= |p| {
        assert p[j..j + |INFIX|] == s[j..j + |INFIX|];
        assert !OccursAt(p, INFIX, j);
      } else if j + |INFIX| <= |s| {
        var l := |p| - j;
        assert s[j..j + |INFIX|][l] == s[|p|];
        assert s[j..j + |INFIX|][..l] == p[j..];
        assert l == 6 ==> p[j..] == p[|p| - 6..];
      }
    }
  }

  /** Digits followed by `.bin` hold no `_chunk_`. */
  lemma NoInfixAfterDigits(d: string)
    requires AllDigits(d)
    ensures IndexOf(d + SUFFIX, INFIX) == None
  {
    var rest := d + SUFFIX;
    forall i | 0 <= i < |rest| ensures rest[i] != '_' {
      if i < |d| {
        assert rest[i] == d[i] && IsDigit(d[i]);
      } else {
        assert rest[i] == SUFFIX[i - |d|];
      }
    }
    NoInfixWithoutUnderscore(rest);
  }

  /** A name with exactly one `_chunk_` followed by a non-empty rest splits into two pieces. */
  lemma SplitOnce(p: string, rest: string)
    requires IndexOf(p + INFIX + rest, INFIX) == Some(|p|) && IndexOf(rest, INFIX) == None && rest != ""
    ensures Split(p + INFIX + rest, INFIX) == [p, rest]
  {
    var name := p + INFIX + rest;
    assert name[..|p|] == p;
    assert name[|p| + |INFIX|..] == rest;
    assert SplitAll(name, INFIX) == [p, rest];
  }

  /** Removing `.bin` from digits followed by `.bin` leaves the digits. */
  lemma RemoveSuffix(d: string)
    requires AllDigits(d)
    ensures RemoveAll(d + SUFFIX, SUFFIX) == d
  {
    var rest := d + SUFFIX;
    assert rest[|d|..|d| + |SUFFIX|] == SUFFIX;
    assert OccursAt(rest, SUFFIX, |d|);
    forall j | 0 <= j < |d| ensures !OccursAt(rest, SUFFIX, j) {
      assert rest[j] == d[j];
      if j + |SUFFIX| <= |rest| {
        assert rest[j..j + |SUFFIX|][0] == rest[j];
      }
    }
    assert rest[..|d|] == d;
    assert rest[|d| + |SUFFIX|..] == [];
  }

  /** Removing a string that does not start where `s` starts keeps the first character. */
  lemma RemoveAllKeepsHead(s: string, t: string)
    requires |t| > 0 && |s| > 0 && s[0] != t[0]
    ensures |RemoveAll(s, t)| > 0 && RemoveAll(s, t)[0] == s[0]
  {
    match IndexOf(s, t)
    case None =>
    case Some(i) =>
      assert s[..|t|][0] == s[0];
  }

  /** The as-written parser reads back a well-formed key whose blob id holds no `_chunk_` and
      does not end in `_chunk`. */
  lemma AsWrittenRoundTrip(k: ChunkKey)
    requires WellFormedKey(k) && !Contains(k.pdfId, INFIX) && !EndsWith(k.pdfId, "_chunk")
    ensures ParseAsWritten(FileName(k)) == Some(k)
  {
    var d := NatToString(k.chunkIndex);
    NatToStringDigits(k.chunkIndex);
    PartsGiveMatch(FileName(k), k.pdfId, d);
    var rest := d + SUFFIX;
    assert FileName(k) == k.pdfId + INFIX + rest;
    FirstInfix(k.pdfId, rest);
    NoInfixAfterDigits(d);
    SplitOnce(k.pdfId, rest);
    RemoveSuffix(d);
    ParseIntToString(k.chunkIndex);
  }

  lemma {:induction false} DropTrailingEmptyPrefix(parts: seq<string>)
    ensures var r := DropTrailingEmpty(parts); |r| <= |parts| && r == parts[..|r|]
  {
    if parts != [] && parts[|parts| - 1] == "" {
      DropTrailingEmptyPrefix(parts[..|parts| - 1]);
    }
  }

  /** When `t` occurs, the first piece of the split is the text in front of its first
      occurrence. */
  lemma SplitFirstPiece(s: string, t: string)
    requires |t| > 0 && IndexOf(s, t).Some? && |Split(s, t)| >= 1
    ensures Split(s, t)[0] == s[..IndexOf(s, t).value]
  {
    DropTrailingEmptyPrefix(SplitAll(s, t));
  }

  /** The text in front of the first occurrence of `t` does not hold `t`. */
  lemma BeforeFirstOccurrence(s: string, t: string)
    requires |t| > 0 && IndexOf(s, t).Some?
    ensures !Contains(s[..IndexOf(s, t).value], t)
  {
    var i := IndexOf(s, t).value;
    var u := s[..i];
    forall j | 0 <= j && j + |t| <= |u| ensures !OccursAt(u, t, j) {
      assert u[j..j + |t|] == s[j..j + |t|];
      assert j < i && !OccursAt(s, t, j);
    }
  }

  /** A name the pattern accepts holds `_chunk_`. */
  lemma MatchHoldsInfix(name: string)
    requires MatchesChunkPattern(name)
    ensures IndexOf(name, INFIX).Some?
  {
    MatchesGivesParts(name);
    var prefix := PatternPrefix(name);
    assert name == prefix + INFIX + (PatternDigits(name) + SUFFIX);
    assert name[|prefix|..|prefix| + |INFIX|] == INFIX;
    assert OccursAt(name, INFIX, |prefix|);
  }

  /** The blob id the as-written parser reports is the text in front of the first `_chunk_`
      of the name, so it never holds `_chunk_` itself. */
  lemma AsWrittenIdIsFirstPiece(name: string)
    requires ParseAsWritten(name).Some?
    ensures var id := ParseAsWritten(name).value.pdfId;
            IndexOf(name, INFIX).Some? && id == name[..IndexOf(name, INFIX).value] && !Contains(id, INFIX)
  {
    MatchHoldsInfix(name);
    var parts := Split(name, INFIX);
    assert ParseAsWritten(name).value.pdfId == parts[0];
    SplitFirstPiece(name, INFIX);
    BeforeFirstOccurrence(name, INFIX);
  }

  /** No `_chunk_` starts where there is no `_`. */
  lemma NoInfixWithoutUnderscore(s: string)
    requires forall i :: 0 <= i <= |s| - |INFIX| ==> s[i] != '_'
    ensures IndexOf(s, INFIX) == None
  {
    forall j | 0 <= j && j + |INFIX| <= |s| ensures !OccursAt(s, INFIX, j) {
      assert s[j..j + |INFIX|][0] == s[j];
    }
  }

  lemma ChunkSuffixId()
    ensures !Contains("a_chunk", INFIX) && !Contains("a", INFIX) && !EndsWith("a", "_chunk")
  {
    var p := "a_chunk";
    forall j | 0 <= j && j + |INFIX| <= |p| ensures !OccursAt(p, INFIX, j) {
      assert p[j..j + |INFIX|][0] == p[0] == 'a';
    }
  }

  lemma ChunkSuffixFileName()
    ensures FileName(ChunkKey("a_chunk", 3)) == "a" + INFIX + "chunk_3.bin"
  {
    assert IntToString(3) == "3";
  }

  /** How the as-written parser splits the name of ("a_chunk", 3). */
  lemma ChunkSuffixSplit()
    ensures Split("a" + INFIX + "chunk_3.bin", INFIX) == ["a", "chunk_3.bin"]
  {
    var rest := "chunk_3.bin";
    assert IndexOf("a" + INFIX + rest, INFIX) == Some(1) by {
      ChunkSuffixId();
      FirstInfix("a", rest);
    }
    assert IndexOf(rest, INFIX) == None by {
      assert forall i :: 0 <= i <= |rest| - |INFIX| ==> rest[i] != '_';
      NoInfixWithoutUnderscore(rest);
    }
    SplitOnce("a", rest);
  }

  /** A blob id ending in `_chunk` defeats the as-written parser: the file of ("a_chunk", 3) is
      "a_chunk_chunk_3.bin", which the pattern accepts but which splits into "a" and
      "chunk_3.bin", and "chunk_3" is not a number, so the file is skipped. Yet "a_chunk" holds
      no `_chunk_`, and the corrected parser reads the key back. */
  lemma AsWrittenSkipsChunkSuffix()
    ensures var k := ChunkKey("a_chunk", 3);
            && WellFormedKey(k) && !Contains(k.pdfId, INFIX)
            && MatchesChunkPattern(FileName(k))
            && ParseAsWritten(FileName(k)) == None
            && ParseChunkName(FileName(k)) == Some(k)
  {
    var k := ChunkKey("a_chunk", 3);
    ChunkSuffixId();
    ChunkNameRoundTrip(k);
    ChunkSuffixFileName();
    ChunkSuffixSplit();
    RemoveAllKeepsHead("chunk_3.bin", SUFFIX);
  }
}
