/** The startup update check (src/update/update_checker.cpp): splitting a
    version string on '.', reading each piece with `std::stoi`, comparing two
    versions component by component, and stripping the `v` of a release tag.
    The HTTP request, the JSON reply and the message box are not modelled:
    the fetched release is a parameter. */
module UpdateChecker {
  import opened Wrappers
  import opened Text

  /** The range of a 32-bit C++ `int`, outside which `std::stoi` throws. */
  const IntMin: int := -0x8000_0000
  const IntMax: int := 0x7FFF_FFFF

  // ---------------------------------------------------------------------
  // std::stoi

  /** C `isspace` in the "C" locale. */
  predicate IsCSpace(c: char) {
    c == ' ' || c == '\t' || c == '\n' || c == '\U{B}' || c == '\U{C}' || c == '\r'
  }

  predicate IsDigit(c: char) {
    '0' <= c <= '9'
  }

  predicate AllDigits(d: string) {
    forall i :: 0 <= i < |d| ==> IsDigit(d[i])
  }

  /** `s` without its leading C whitespace. */
  function SkipSpaces(s: string): (r: string)
    ensures |r| <= |s| && r == s[|s| - |r|..]
    ensures r != [] ==> !IsCSpace(r[0])
  {
    if s != [] && IsCSpace(s[0]) then SkipSpaces(s[1..]) else s
  }

  /** The length of the run of digits that `s` starts with. */
  function DigitRun(s: string): (n: nat)
    ensures n <= |s| && AllDigits(s[..n])
    ensures n < |s| ==> !IsDigit(s[n])
  {
    if s != [] && IsDigit(s[0]) then
      var n := 1 + DigitRun(s[1..]);
      assert s[..n] == [s[0]] + s[1..][..n - 1];
      n
    else 0
  }

  /** The number written by a string of decimal digits. */
  function DecimalValue(d: string): nat
    requires AllDigits(d)
  {
    if d == [] then 0 else 10 * DecimalValue(d[..|d| - 1]) + ((d[|d| - 1] as int) - ('0' as int))
  }

  /** `std::stoi(s)`: optional leading whitespace, an optional sign, then the
      longest run of digits; `None` where it throws, that is when there is no
      digit to read or the number does not fit in an `int`. */
  function Stoi(s: string): (r: Option<int>)
    ensures r.Some? ==> IntMin <= r.value <= IntMax
  {
    StoiUnpadded(SkipSpaces(s))
  }

  /** `std::stoi` once the leading whitespace is gone. */
  function StoiUnpadded(t: string): (r: Option<int>)
    ensures r.Some? ==> IntMin <= r.value <= IntMax
  {
    var negative := t != [] && t[0] == '-';
    var body := if t != [] && (t[0] == '-' || t[0] == '+') then t[1..] else t;
    var n := DigitRun(body);
    if n == 0 then None
    else
      var magnitude: int := DecimalValue(body[..n]);
      var v: int := if negative then -magnitude else magnitude;
      if IntMin <= v <= IntMax then Some(v) else None
  }

  /** The value `parseVersion` records for one piece: the parsed number, or
      0 when `std::stoi` throws. */
  function PieceValue(piece: string): int {
    Stoi(piece).GetOr(0)
  }

  /** The decimal spelling of `n`, without sign or leading zeros. */
  function DecimalString(n: nat): (d: string)
    ensures d != [] && AllDigits(d)
  {
    if n < 10 then [('0' as int + n) as char]
    else DecimalString(n / 10) + [('0' as int + n % 10) as char]
  }

  lemma {:induction false} DecimalValueOfString(n: nat)
    ensures DecimalValue(DecimalString(n)) == n
  {
    var d := DecimalString(n);
    if n >= 10 {
      DecimalValueOfString(n / 10);
      assert d[..|d| - 1] == DecimalString(n / 10);
    }
  }

  /** A piece written as a plain decimal number reads back as that number. */
  lemma StoiOfDecimal(n: nat)
    requires n <= IntMax
    ensures Stoi(DecimalString(n)) == Some(n)
    ensures PieceValue(DecimalString(n)) == n
  {
    var d := DecimalString(n);
    assert d[0] != '-' && d[0] != '+' && !IsCSpace(d[0]);
    assert SkipSpaces(d) == d;
    assert DigitRun(d) == |d|;
    assert d[..|d|] == d;
    DecimalValueOfString(n);
  }

  /** Leading C whitespace in front of text that does not start with
      whitespace is skipped, and nothing more. */
  lemma {:induction false} SkipSpacesPadded(ws: string, u: string)
    requires forall i :: 0 <= i < |ws| ==> IsCSpace(ws[i])
    requires u == [] || !IsCSpace(u[0])
    ensures SkipSpaces(ws + u) == u
    decreases |ws|
  {
    if ws == [] {
      assert ws + u == u;
    } else {
      assert (ws + u)[1..] == ws[1..] + u;
      SkipSpacesPadded(ws[1..], u);
    }
  }

  /** The digit run of `digits + rest` is exactly `digits` when `rest` does
      not start with a digit. */
  lemma {:induction false} DigitRunOfDigits(digits: string, rest: string)
    requires AllDigits(digits)
    requires rest == [] || !IsDigit(rest[0])
    ensures DigitRun(digits + rest) == |digits|
    decreases |digits|
  {
    if digits == [] {
      assert digits + rest == rest;
    } else {
      assert (digits + rest)[1..] == digits[1..] + rest;
      DigitRunOfDigits(digits[1..], rest);
    }
  }

  /** `std::stoi` on whitespace, an optional sign, digits and a tail that
      does not start with a digit: the signed value of the digits when it
      fits in an `int`, and the exception otherwise; the tail is ignored. */
  lemma StoiOfWritten(ws: string, sign: string, digits: string, rest: string)
    requires forall i :: 0 <= i < |ws| ==> IsCSpace(ws[i])
    requires |sign| <= 1 && (sign != [] ==> sign[0] == '-' || sign[0] == '+')
    requires digits != [] && AllDigits(digits)
    requires rest == [] || !IsDigit(rest[0])
    ensures var m: int := DecimalValue(digits); var v := if sign != [] && sign[0] == '-' then -m else m;
      Stoi(ws + sign + digits + rest) == if IntMin <= v <= IntMax then Some(v) else None
  {
    var u := sign + (digits + rest);
    assert ws + sign + digits + rest == ws + u;
    assert u[0] == (if sign == [] then digits[0] else sign[0]);
    SkipSpacesPadded(ws, u);
    StoiOfSignedDigits(sign, digits, rest);
  }

  /** `std::stoi` past the whitespace on a sign, digits and a tail that does
      not start with a digit. */
  lemma StoiOfSignedDigits(sign: string, digits: string, rest: string)
    requires |sign| <= 1 && (sign != [] ==> sign[0] == '-' || sign[0] == '+')
    requires digits != [] && AllDigits(digits)
    requires rest == [] || !IsDigit(rest[0])
    ensures var m: int := DecimalValue(digits); var v := if sign != [] && sign[0] == '-' then -m else m;
      StoiUnpadded(sign + (digits + rest)) == if IntMin <= v <= IntMax then Some(v) else None
  {
    DigitRunOfDigits(digits, rest);
    StoiOfUnpadded(sign, digits + rest, |digits|);
    DecimalValueOfPrefix(digits, rest);
  }

  /** The digits in front of a tail have their own value. */
  lemma DecimalValueOfPrefix(digits: string, rest: string)
    requires AllDigits(digits)
    ensures DecimalValue((digits + rest)[..|digits|]) == DecimalValue(digits)
  {
    assert (digits + rest)[..|digits|] == digits;
  }

  /** `std::stoi` past the whitespace: the sign is read, then the digit run. */
  lemma StoiOfUnpadded(sign: string, body: string, n: nat)
    requires |sign| <= 1 && (sign != [] ==> sign[0] == '-' || sign[0] == '+')
    requires body != [] && !IsCSpace(body[0]) && body[0] != '-' && body[0] != '+'
    requires 0 < n <= |body| && DigitRun(body) == n
    ensures var m: int := DecimalValue(body[..n]); var v := if sign != [] && sign[0] == '-' then -m else m;
      StoiUnpadded(sign + body) == if IntMin <= v <= IntMax then Some(v) else None
  {
    var t := sign + body;
    var b := if t[0] == '-' || t[0] == '+' then t[1..] else t;
    assert b == body by {
      if sign != [] { assert t[1..] == body; } else { assert t == body; }
    }
    assert DigitRun(b) == n;
    assert b[..n] == body[..n];
    assert (t[0] == '-') == (sign != [] && sign[0] == '-');
  }

  /** A piece whose first character after the whitespace and an optional
      sign is not a digit ("rc1", "+-1", "- 1", "") is rejected by
      `std::stoi`, whatever digits come later, and so counts as 0. */
  lemma NoLeadingDigitIsZero(piece: string)
    requires var t := SkipSpaces(piece);
      var body := if t != [] && (t[0] == '-' || t[0] == '+') then t[1..] else t;
      body == [] || !IsDigit(body[0])
    ensures Stoi(piece) == None
    ensures PieceValue(piece) == 0
  {
  }

  /** A piece with no digit at all (an empty piece, "beta", ...) is rejected
      by `std::stoi` and so counts as 0. */
  lemma RejectedPieceIsZero(piece: string)
    requires forall i :: 0 <= i < |piece| ==> !IsDigit(piece[i])
    ensures Stoi(piece) == None
    ensures PieceValue(piece) == 0
  {
    var t := SkipSpaces(piece);
    var body := if t != [] && (t[0] == '-' || t[0] == '+') then t[1..] else t;
    if body != [] {
      assert body[0] in piece;
    }
  }

  // ---------------------------------------------------------------------
  // Splitting with std::getline(ss, part, '.')

  /** The pieces `std::getline(ss, part, '.')` extracts from `s`, in order:
      every piece that ends at a '.' (even an empty one), then the rest of
      the string only if it is non-empty. */
  function Pieces(s: string): (p: seq<string>)
    decreases |s|
    ensures p == [] <==> s == []
  {
    if s == [] then []
    else if '.' in s then
      var k := FirstIndex(s, '.');
      [s[..k]] + Pieces(s[k + 1..])
    else [s]
  }

  /** The pieces joined back together with '.' between them. */
  function JoinDots(pieces: seq<string>): string {
    if pieces == [] then []
    else if |pieces| == 1 then pieces[0]
    else pieces[0] + ['.'] + JoinDots(pieces[1..])
  }

  predicate EndsWithDot(s: string) {
    s != [] && s[|s| - 1] == '.'
  }

  /** The separator `getline` consumes at the very end without producing a
      piece for it. */
  function TrailingDot(s: string): string {
    if EndsWithDot(s) then "." else ""
  }

  /** No piece contains the separator. */
  lemma {:induction false} PiecesHaveNoDot(s: string)
    ensures forall i :: 0 <= i < |Pieces(s)| ==> '.' !in Pieces(s)[i]
    decreases |s|
  {
    if s != [] && '.' in s {
      var k := FirstIndex(s, '.');
      PiecesHaveNoDot(s[k + 1..]);
    }
  }

  lemma JoinCons(p: string, ps: seq<string>)
    requires ps != []
    ensures JoinDots([p] + ps) == p + ['.'] + JoinDots(ps)
  {
    assert ([p] + ps)[1..] == ps;
  }

  lemma JoinStep(part: string, rest: string, ps: seq<string>)
    requires rest != [] && ps != []
    requires JoinDots(ps) + TrailingDot(rest) == rest
    ensures JoinDots([part] + ps) + TrailingDot(part + ['.'] + rest) == part + ['.'] + rest
  {
    JoinCons(part, ps);
    var s := part + ['.'] + rest;
    assert s[|s| - 1] == rest[|rest| - 1];
    calc {
      JoinDots([part] + ps) + TrailingDot(s);
      (part + ['.'] + JoinDots(ps)) + TrailingDot(rest);
      part + ['.'] + (JoinDots(ps) + TrailingDot(rest));
    }
  }

  /** Splitting loses nothing but a final '.': joining the pieces (and
      putting back a trailing separator) gives the original string. */
  lemma {:induction false} JoinPieces(s: string)
    ensures JoinDots(Pieces(s)) + TrailingDot(s) == s
    decreases |s|
  {
    if s == [] {
    } else if '.' in s {
      var part, rest := SplitAtFirstDot(s);
      PiecesAfterDot(part, rest);
      JoinPieces(rest);
      if rest == [] {
        assert Pieces(s) == [part] && EndsWithDot(s);
      } else {
        JoinStep(part, rest, Pieces(rest));
      }
    } else {
      assert s[|s| - 1] in s;
      assert Pieces(s) == [s] && !EndsWithDot(s);
    }
  }

  /** A string holding a '.' is a dot-free part, the first '.', and the rest. */
  lemma SplitAtFirstDot(s: string) returns (part: string, rest: string)
    requires '.' in s
    ensures '.' !in part && s == part + ['.'] + rest
  {
    var k := FirstIndex(s, '.');
    part, rest := s[..k], s[k + 1..];
    assert s == part + [s[k]] + rest;
  }

  /** Cutting a dot-free piece off the front. */
  lemma PiecesAfterDot(part: string, rest: string)
    requires '.' !in part
    ensures Pieces(part + ['.'] + rest) == [part] + Pieces(rest)
  {
    FirstIndexAfterPrefix(part, '.', rest);
    var s := part + ['.'] + rest;
    assert s[..|part|] == part && s[|part| + 1..] == rest;
  }

  /** The component recorded for each piece, in order. */
  function Components(pieces: seq<string>): (parts: seq<int>)
    ensures |parts| == |pieces|
    ensures forall i :: 0 <= i < |parts| ==> parts[i] == PieceValue(pieces[i])
  {
    if pieces == [] then []
    else Components(pieces[..|pieces| - 1]) + [PieceValue(pieces[|pieces| - 1])]
  }

  /** The component list `parseVersion` produces for `version`. */
  function VersionParts(version: string): seq<int> {
    Components(Pieces(version))
  }

  /** The scan of `parseVersion` after `i` characters: `done` holds the
      pieces already pushed and `part` the piece being read. */
  ghost predicate Scanned(version: string, i: nat, part: string, done: seq<string>) {
    i <= |version| && '.' !in part && done + Pieces(part + version[i..]) == Pieces(version)
  }

  lemma ScanStart(version: string)
    ensures Scanned(version, 0, [], [])
  {
    assert [] + version[0..] == version;
  }

  lemma ScanChar(version: string, i: nat, part: string, done: seq<string>)
    requires Scanned(version, i, part, done) && i < |version| && version[i] != '.'
    ensures Scanned(version, i + 1, part + [version[i]], done)
  {
    assert part + version[i..] == (part + [version[i]]) + version[i + 1..];
  }

  lemma ScanDot(version: string, i: nat, part: string, done: seq<string>)
    requires Scanned(version, i, part, done) && i < |version| && version[i] == '.'
    ensures Scanned(version, i + 1, [], done + [part])
  {
    var rest := version[i + 1..];
    assert version[i..] == ['.'] + rest;
    var whole := part + version[i..];
    assert whole == part + ['.'] + rest;
    PiecesAfterDot(part, rest);
    assert Pieces(whole) == [part] + Pieces(rest);
    assert [] + rest == rest;
    assert (done + [part]) + Pieces(rest) == done + ([part] + Pieces(rest));
  }

  lemma ScanEnd(version: string, part: string, done: seq<string>)
    requires Scanned(version, |version|, part, done)
    ensures Pieces(version) == if part == [] then done else done + [part]
  {
    assert part + version[|version|..] == part;
    if part == [] {
      assert done + [] == done;
    }
  }

  /** `parseVersion`: one component per piece `getline` extracts, in order;
      a piece `std::stoi` rejects becomes 0. */
  method ParseVersion(version: string) returns (parts: seq<int>)
    ensures parts == VersionParts(version)
  {
    parts := [];
    var part: string := [];
    ghost var done: seq<string> := [];
    var i := 0;
    ScanStart(version);
    while i < |version|
      invariant Scanned(version, i, part, done)
      invariant parts == Components(done)
    {
      if version[i] == '.' {
        ScanDot(version, i, part, done);
        parts := parts + [PieceValue(part)];
        done := done + [part];
        assert done[..|done| - 1] == done[..|done| - 1];
        part := [];
      } else {
        ScanChar(version, i, part, done);
        part := part + [version[i]];
      }
      i := i + 1;
    }
    ScanEnd(version, part, done);
    if part != [] {
      parts := parts + [PieceValue(part)];
      done := done + [part];
      assert done[..|done| - 1] == done[..|done| - 1];
    }
  }

  // ---------------------------------------------------------------------
  // Comparison

  /** Component `i`, or 0 past the end: missing trailing components count
      as 0. */
  function At(parts: seq<int>, i: nat): int {
    if i < |parts| then parts[i] else 0
  }

  function Rest(parts: seq<int>): seq<int> {
    if parts == [] then [] else parts[1..]
  }

  function Drop(parts: seq<int>, n: nat): seq<int> {
    if n <= |parts| then parts[n..] else []
  }

  function Max(a: nat, b: nat): nat {
    if a >= b then a else b
  }

  /** `latest` is newer than `current`: compared from the first component,
      the first one that differs is larger in `latest`. */
  function NewerParts(current: seq<int>, latest: seq<int>): (r: bool)
    decreases |current| + |latest|
    ensures r ==> current != latest
  {
    if current == [] && latest == [] then false
    else if At(latest, 0) > At(current, 0) then true
    else if At(latest, 0) < At(current, 0) then false
    else NewerParts(Rest(current), Rest(latest))
  }

  /** The independent reading of the comparison: some position below the
      longer length has a larger `latest` component and equal components
      before it. */
  ghost predicate FirstDifferenceNewer(current: seq<int>, latest: seq<int>) {
    exists i: nat :: i < Max(|current|, |latest|) && At(latest, i) > At(current, i)
      && forall j: nat :: j < i ==> At(current, j) == At(latest, j)
  }

  lemma AtRest(parts: seq<int>, i: nat)
    ensures At(Rest(parts), i) == At(parts, i + 1)
  {
  }

  /** A "newer" answer comes from a first differing component that is
      larger in `latest`. */
  lemma {:induction false} NewerHasFirstDifference(current: seq<int>, latest: seq<int>)
    requires NewerParts(current, latest)
    ensures FirstDifferenceNewer(current, latest)
    decreases |current| + |latest|
  {
    if At(latest, 0) > At(current, 0) {
      assert forall j: nat :: j < 0 ==> At(current, j) == At(latest, j);
      assert 0 < Max(|current|, |latest|) && At(latest, 0) > At(current, 0);
    } else {
      var c', l' := Rest(current), Rest(latest);
      NewerHasFirstDifference(c', l');
      var i: nat :| i < Max(|c'|, |l'|) && At(l', i) > At(c', i)
        && forall j: nat :: j < i ==> At(c', j) == At(l', j);
      AtRest(current, i); AtRest(latest, i);
      forall j: nat | j < i + 1 ensures At(current, j) == At(latest, j) {
        if j > 0 { AtRest(current, j - 1); AtRest(latest, j - 1); }
      }
      assert i + 1 < Max(|current|, |latest|);
    }
  }

  /** A first differing component that is larger in `latest` makes the
      comparison answer "newer". */
  lemma {:induction false} FirstDifferenceIsNewer(current: seq<int>, latest: seq<int>)
    requires FirstDifferenceNewer(current, latest)
    ensures NewerParts(current, latest)
    decreases |current| + |latest|
  {
    var i: nat :| i < Max(|current|, |latest|) && At(latest, i) > At(current, i)
      && forall j: nat :: j < i ==> At(current, j) == At(latest, j);
    if i > 0 {
      assert At(latest, 0) == At(current, 0);
      var c', l' := Rest(current), Rest(latest);
      AtRest(current, i - 1); AtRest(latest, i - 1);
      forall j: nat | j < i - 1 ensures At(c', j) == At(l', j) {
        AtRest(current, j); AtRest(latest, j);
        assert At(current, j + 1) == At(latest, j + 1);
      }
      assert i - 1 < Max(|c'|, |l'|);
      FirstDifferenceIsNewer(c', l');
    }
  }

  /** Both readings of "newer" agree on all inputs. */
  lemma NewerPartsIsFirstDifference(current: seq<int>, latest: seq<int>)
    ensures NewerParts(current, latest) <==> FirstDifferenceNewer(current, latest)
  {
    if NewerParts(current, latest) {
      NewerHasFirstDifference(current, latest);
    }
    if FirstDifferenceNewer(current, latest) {
      FirstDifferenceIsNewer(current, latest);
    }
  }

  /** Equal leading components can be skipped without changing the answer. */
  lemma {:induction false} NewerAfterEqualPrefix(current: seq<int>, latest: seq<int>, n: nat)
    requires forall j: nat :: j < n ==> At(current, j) == At(latest, j)
    ensures NewerParts(current, latest) == NewerParts(Drop(current, n), Drop(latest, n))
  {
    if n > 0 {
      var c', l' := Rest(current), Rest(latest);
      forall j: nat | j < n - 1 ensures At(c', j) == At(l', j) {
        AtRest(current, j); AtRest(latest, j);
      }
      NewerAfterEqualPrefix(c', l', n - 1);
      assert Drop(c', n - 1) == Drop(current, n);
      assert Drop(l', n - 1) == Drop(latest, n);
      if current == [] && latest == [] {
      } else {
        assert At(current, 0) == At(latest, 0);
      }
    }
  }

  /** A version is never newer than itself. */
  lemma {:induction false} NewerIrreflexive(parts: seq<int>)
    ensures !NewerParts(parts, parts)
    decreases |parts|
  {
    if parts != [] {
      NewerIrreflexive(Rest(parts));
    }
  }

  /** Never newer in both directions. */
  lemma {:induction false} NewerAsymmetric(a: seq<int>, b: seq<int>)
    ensures !(NewerParts(a, b) && NewerParts(b, a))
    decreases |a| + |b|
  {
    if !(a == [] && b == []) && At(a, 0) == At(b, 0) {
      NewerAsymmetric(Rest(a), Rest(b));
    }
  }

  /** "Newer" is transitive. */
  lemma {:induction false} NewerTransitive(a: seq<int>, b: seq<int>, c: seq<int>)
    requires NewerParts(a, b) && NewerParts(b, c)
    ensures NewerParts(a, c)
    decreases |a| + |b| + |c|
  {
    if At(a, 0) == At(b, 0) && At(b, 0) == At(c, 0) {
      NewerTransitive(Rest(a), Rest(b), Rest(c));
    }
  }

  /** Trailing zero components change nothing: "1.2" and "1.2.0" compare as
      equal, in both directions. */
  lemma {:induction false} TrailingZeroIgnored(a: seq<int>, b: seq<int>)
    ensures NewerParts(a + [0], b) == NewerParts(a, b)
    ensures NewerParts(b, a + [0]) == NewerParts(b, a)
    decreases |a| + |b|
  {
    if a == [] {
      TrailingZeroOnEmpty(b);
    } else {
      assert Rest(a + [0]) == Rest(a) + [0];
      if At(a, 0) == At(b, 0) {
        TrailingZeroIgnored(Rest(a), Rest(b));
      }
    }
  }

  lemma {:induction false} TrailingZeroOnEmpty(b: seq<int>)
    ensures NewerParts([0], b) == NewerParts([], b)
    ensures NewerParts(b, [0]) == NewerParts(b, [])
    decreases |b|
  {
    if b != [] && At(b, 0) == 0 {
      assert Rest([0]) == [];
    }
  }

  /** The loop of `isNewerVersion`: walks both component lists up to the
      longer length, padding the shorter with 0, and answers at the first
      difference. */
  method CompareParts(currentParts: seq<int>, latestParts: seq<int>) returns (newer: bool)
    ensures newer == NewerParts(currentParts, latestParts)
  {
    var maxLen := Max(|currentParts|, |latestParts|);
    for i := 0 to maxLen
      invariant forall j: nat :: j < i ==> At(currentParts, j) == At(latestParts, j)
    {
      var currentPart := if i < |currentParts| then currentParts[i] else 0;
      var latestPart := if i < |latestParts| then latestParts[i] else 0;
      if latestPart > currentPart {
        NewerAfterEqualPrefix(currentParts, latestParts, i);
        return true;
      } else if latestPart < currentPart {
        NewerAfterEqualPrefix(currentParts, latestParts, i);
        return false;
      }
    }
    NewerAfterEqualPrefix(currentParts, latestParts, maxLen);
    return false;
  }

  /** `isNewerVersion`: parse both strings, then compare. */
  method IsNewerVersion(current: string, latest: string) returns (newer: bool)
    ensures newer == NewerParts(VersionParts(current), VersionParts(latest))
  {
    var currentParts := ParseVersion(current);
    var latestParts := ParseVersion(latest);
    newer := CompareParts(currentParts, latestParts);
  }

  /** The comparison on version strings, for stating properties. */
  ghost predicate NewerVersion(current: string, latest: string) {
    NewerParts(VersionParts(current), VersionParts(latest))
  }

  // ---------------------------------------------------------------------
  // The release tag and the decision to notify

  /** A tag starting with 'v' loses exactly that character; any other tag,
      the empty one included, is kept. */
  function StripVersionPrefix(tag: string): (version: string)
    ensures tag != [] && tag[0] == 'v' ==> ['v'] + version == tag
    ensures (tag == [] || tag[0] != 'v') ==> version == tag
  {
    if tag != [] && tag[0] == 'v' then tag[1..] else tag
  }

  /** Only one 'v' goes: "vv1" becomes "v1". */
  lemma StripRemovesOneV(rest: string)
    ensures StripVersionPrefix(['v'] + rest) == rest
  {
    assert (['v'] + rest)[1..] == rest;
  }

  /** What a successful fetch yields: the version from the release tag and
      the release page's address. */
  datatype Release = Release(version: string, url: string)

  function ReleaseFromTag(tagName: string, htmlUrl: string): (r: Release)
    ensures r.url == htmlUrl
    ensures tagName != [] && tagName[0] == 'v' ==> r.version == tagName[1..]
    ensures !(tagName != [] && tagName[0] == 'v') ==> r.version == tagName
  {
    Release(StripVersionPrefix(tagName), htmlUrl)
  }

  /** `checkUpdateThread`: nothing when the fetch failed; otherwise the
      release is announced exactly when it is strictly newer than the running
      version. */
  method CheckUpdate(currentVersion: string, fetched: Option<Release>) returns (announced: Option<Release>)
    ensures announced.Some? <==> fetched.Some? && NewerVersion(currentVersion, fetched.value.version)
    ensures announced.Some? ==> announced == fetched
  {
    if fetched.None? {
      return None;
    }
    var newer := IsNewerVersion(currentVersion, fetched.value.version);
    if newer {
      announced := fetched;
    } else {
      announced := None;
    }
  }
}
