/**
 Go's `strings` and `strconv` primitives that the scraper's decisions rest on,
 over strings seen as sequences of Unicode scalar values.
 */
module Text {
  import opened Wrappers

  // ---------------------------------------------------------------------------
  // Substrings
  // ---------------------------------------------------------------------------

  /** `t` occurs in `s` starting at index `i` (for strings and byte strings alike). */
  predicate OccursAt<T(==)>(s: seq<T>, t: seq<T>, i: int) {
    0 <= i && i + |t| <= |s| && s[i..i + |t|] == t
  }

  /** The first occurrence of `t` in `s` at or after `from`. */
  function IndexFrom<T(==)>(s: seq<T>, t: seq<T>, from: nat): (r: Option<nat>)
    decreases |s| - from
    ensures r.Some? ==> from <= r.value && OccursAt(s, t, r.value)
    ensures r.Some? ==> forall j :: from <= j < r.value ==> !OccursAt(s, t, j)
    ensures r.None? ==> forall j :: from <= j ==> !OccursAt(s, t, j)
  {
    if from + |t| > |s| then None
    else if s[from..from + |t|] == t then Some(from)
    else IndexFrom(s, t, from + 1)
  }

  /** `strings.Index`: the first occurrence of `t` in `s`. */
  function Index<T(==)>(s: seq<T>, t: seq<T>): (r: Option<nat>)
    ensures r.Some? ==> OccursAt(s, t, r.value) && forall j :: 0 <= j < r.value ==> !OccursAt(s, t, j)
    ensures r.None? ==> forall j :: !OccursAt(s, t, j)
  {
    IndexFrom(s, t, 0)
  }

  /** `strings.Contains`. */
  predicate Contains<T(==)>(s: seq<T>, t: seq<T>)
    ensures Contains(s, t) <==> exists i :: OccursAt(s, t, i)
  {
    Index(s, t).Some?
  }

  /** An occurrence inside a prefix is an occurrence in the whole string. */
  lemma OccursInPrefix<T>(s: seq<T>, t: seq<T>, n: nat, j: int)
    requires n <= |s|
    requires OccursAt(s[..n], t, j)
    ensures OccursAt(s, t, j)
  {
    assert s[..n][j..j + |t|] == s[j..j + |t|];
  }

  /** Substring containment is transitive. */
  lemma {:induction false} ContainsTransitive<T>(s: seq<T>, t: seq<T>, u: seq<T>)
    requires Contains(s, t) && Contains(t, u)
    ensures Contains(s, u)
  {
    var i :| OccursAt(s, t, i);
    var j :| OccursAt(t, u, j);
    forall k | 0 <= k < |u|
      ensures s[i + j + k] == u[k]
    {
      assert s[i + j + k] == s[i..i + |t|][j + k] == t[j + k] == t[j..j + |u|][k];
    }
    assert s[i + j..i + j + |u|] == u;
    assert OccursAt(s, u, i + j);
  }

  /** A string holding none of the characters of `t` cannot contain a non-empty `t`. */
  lemma NoCharNoContains<T>(s: seq<T>, t: seq<T>)
    requires |t| > 0 && t[0] !in s
    ensures !Contains(s, t)
  {
    forall i
      ensures !OccursAt(s, t, i)
    {
      if 0 <= i && i + |t| <= |s| {
        assert s[i..i + |t|][0] == s[i];
      }
    }
  }

  // ---------------------------------------------------------------------------
  // Split and Join
  // ---------------------------------------------------------------------------

  /** `strings.Join`. */
  function Join(parts: seq<string>, sep: string): string
    decreases |parts|
  {
    if |parts| == 0 then ""
    else if |parts| == 1 then parts[0]
    else parts[0] + sep + Join(parts[1..], sep)
  }

  /**
   `strings.Split` with a non-empty separator: the pieces between the
   occurrences of `sep`, so joining them back with `sep` gives `s` again.
   */
  function Split(s: string, sep: string): (parts: seq<string>)
    requires |sep| > 0
    decreases |s|
    ensures |parts| >= 1
    ensures Join(parts, sep) == s
    ensures NoneContains(parts, sep)
    ensures |parts| == 1 <==> !Contains(s, sep)
  {
    match Index(s, sep)
    case None => [s]
    case Some(i) =>
      var rest := Split(s[i + |sep|..], sep);
      SplitStep(s, sep, i, rest);
      [s[..i]] + rest
  }

  /** No piece holds the separator. */
  predicate NoneContains(parts: seq<string>, sep: string) {
    forall k :: 0 <= k < |parts| ==> !Contains(parts[k], sep)
  }

  /** The piece before the first separator holds no separator, and gluing it back in front restores `s`. */
  lemma SplitStep(s: string, sep: string, i: nat, rest: seq<string>)
    requires |sep| > 0 && Index(s, sep) == Some(i)
    requires |rest| >= 1 && Join(rest, sep) == s[i + |sep|..]
    requires NoneContains(rest, sep)
    ensures Join([s[..i]] + rest, sep) == s
    ensures NoneContains([s[..i]] + rest, sep)
  {
    JoinAroundFirst(s, sep, i, rest);
    BeforeFirstOccurrence(s, sep, i);
    NoneContainsCons(s[..i], rest, sep);
  }

  /** Gluing the piece before an occurrence of `sep` in front of a split of what follows it restores `s`. */
  lemma JoinAroundFirst(s: string, sep: string, i: nat, rest: seq<string>)
    requires OccursAt(s, sep, i)
    requires |rest| >= 1 && Join(rest, sep) == s[i + |sep|..]
    ensures Join([s[..i]] + rest, sep) == s
  {
    var parts := [s[..i]] + rest;
    assert parts[0] == s[..i] && parts[1..] == rest;
    assert Join(parts, sep) == s[..i] + sep + Join(rest, sep);
    ThreeSlices(s, i, i + |sep|);
  }

  /** Cutting a sequence at two points and gluing the three slices back. */
  lemma ThreeSlices<T>(s: seq<T>, i: nat, j: nat)
    requires i <= j <= |s|
    ensures s[..i] + s[i..j] + s[j..] == s
  {
    assert s[..i] + s[i..j] == s[..j];
  }

  /** A piece without the separator in front of pieces without it. */
  lemma NoneContainsCons(head: string, rest: seq<string>, sep: string)
    requires !Contains(head, sep) && NoneContains(rest, sep)
    ensures NoneContains([head] + rest, sep)
  {
    var parts := [head] + rest;
    forall k | 0 <= k < |parts|
      ensures !Contains(parts[k], sep)
    {
      if k > 0 {
        assert parts[k] == rest[k - 1];
      }
    }
  }

  /** Nothing before the first occurrence of `t` contains `t`. */
  lemma BeforeFirstOccurrence<T>(s: seq<T>, t: seq<T>, i: nat)
    requires |t| > 0 && i <= |s| && forall j :: 0 <= j < i ==> !OccursAt(s, t, j)
    ensures !Contains(s[..i], t)
  {
    forall j
      ensures !OccursAt(s[..i], t, j)
    {
      if OccursAt(s[..i], t, j) {
        OccursInPrefix(s, t, i, j);
      }
    }
  }

  /** Joining a list is joining its first `k` pieces, the separator, and the rest. */
  lemma {:induction false} JoinAt(parts: seq<string>, sep: string, k: nat)
    requires 0 < k < |parts|
    ensures Join(parts, sep) == Join(parts[..k], sep) + sep + Join(parts[k..], sep)
  {
    if k == 1 {
      assert parts[..1] == [parts[0]] && parts[1..] == parts[k..];
    } else {
      var tail := parts[1..];
      JoinAt(tail, sep, k - 1);
      assert tail[..k - 1] == parts[..k][1..];
      assert tail[k - 1..] == parts[k..];
    }
  }

  /** A string that does not contain the one-character string `[c]` does not hold `c`. */
  lemma NotContainsChar(s: string, c: char)
    requires !Contains(s, [c])
    ensures c !in s
  {
    if c in s {
      var i :| 0 <= i < |s| && s[i] == c;
      assert s[i..i + 1] == [c];
      assert OccursAt(s, [c], i);
    }
  }

  /** Splitting a joined list on a one-character separator the items do not hold gives the list back. */
  lemma {:induction false} SplitJoin(parts: seq<string>, sep: string)
    requires |sep| == 1 && |parts| >= 1
    requires forall k :: 0 <= k < |parts| ==> sep[0] !in parts[k]
    ensures Split(Join(parts, sep), sep) == parts
  {
    if |parts| == 1 {
      NoCharNoContains(parts[0], sep);
    } else {
      var head, rest := parts[0], Join(parts[1..], sep);
      assert Join(parts, sep) == head + sep + rest;
      forall k | 0 <= k < |parts| - 1 ensures sep[0] !in parts[1..][k] {
        assert parts[1..][k] == parts[k + 1];
      }
      SplitAtFirst(head, sep, rest);
      SplitJoin(parts[1..], sep);
      assert parts == [head] + parts[1..];
    }
  }

  /** Splitting at a first separator that follows a piece free of it. */
  lemma SplitAtFirst(head: string, sep: string, rest: string)
    requires |sep| == 1 && sep[0] !in head
    ensures Split(head + sep + rest, sep) == [head] + Split(rest, sep)
  {
    var s := head + sep + rest;
    FirstSeparator(head, sep, rest);
    assert s[..|head|] == head && s[|head| + 1..] == rest;
  }

  /** A one-character separator after a piece free of it is its first occurrence. */
  lemma FirstSeparator(head: string, sep: string, rest: string)
    requires |sep| == 1 && sep[0] !in head
    ensures Index(head + sep + rest, sep) == Some(|head|)
  {
    var s := head + sep + rest;
    assert s[|head|..|head| + 1] == sep;
    assert OccursAt(s, sep, |head|);
    forall j | 0 <= j < |head|
      ensures !OccursAt(s, sep, j)
    {
      assert s[j..j + 1][0] == s[j] == head[j];
    }
    var r := Index(s, sep);
    assert r.Some? && r.value <= |head|;
    assert !(r.value < |head|);
  }

  /**
   A pattern placed right after a character it does not hold, behind a
   piece that does not contain it, is first found there.
   */
  lemma FirstPatternAfter(head: string, c: char, pat: string, rest: string)
    requires |pat| > 0 && !Contains(head, pat) && c !in pat
    ensures Index(head + [c] + pat + rest, pat) == Some(|head| + 1)
  {
    var s := head + [c] + pat + rest;
    var n := |head| + 1;
    assert s[n..n + |pat|] == pat;
    assert OccursAt(s, pat, n);
    forall j | 0 <= j < n
      ensures !OccursAt(s, pat, j)
    {
      if j + |pat| <= |head| {
        assert s[j..j + |pat|] == head[j..j + |pat|];
        assert !OccursAt(head, pat, j);
      } else if j + |pat| <= |s| {
        var off := |head| - j;
        assert s[j..j + |pat|][off] == s[|head|] == c;
      }
    }
    var r := Index(s, pat);
    assert r.Some? && r.value <= n;
    assert !(r.value < n);
  }

  /** Splitting at that first occurrence: the piece up to the character, then the split of the rest. */
  lemma SplitAtPattern(head: string, c: char, pat: string, rest: string)
    requires |pat| > 0 && !Contains(head, pat) && c !in pat
    ensures Split(head + [c] + pat + rest, pat) == [head + [c]] + Split(rest, pat)
  {
    var s := head + [c] + pat + rest;
    FirstPatternAfter(head, c, pat, rest);
    assert s[..|head| + 1] == head + [c];
    assert s[|head| + 1 + |pat|..] == rest;
  }

  // ---------------------------------------------------------------------------
  // White space and case
  // ---------------------------------------------------------------------------

  /** Go's `unicode.IsSpace`: the Unicode White_Space property. */
  predicate IsSpace(c: char) {
    || c == '\t' || c == '\n' || c == '\U{000B}' || c == '\U{000C}' || c == '\r' || c == ' '
    || c == '\U{0085}' || c == '\U{00A0}' || c == '\U{1680}'
    || ('\U{2000}' <= c <= '\U{200A}')
    || c == '\U{2028}' || c == '\U{2029}' || c == '\U{202F}' || c == '\U{205F}' || c == '\U{3000}'
  }

  /** Every character of `s` is white space. */
  predicate AllSpace(s: string) {
    forall i :: 0 <= i < |s| ==> IsSpace(s[i])
  }

  /** Drops leading white space: what remains is a suffix of `s` that does not start with a space. */
  function TrimLeft(s: string): (r: string)
    ensures |r| <= |s| && r == s[|s| - |r|..]
    ensures AllSpace(s[..|s| - |r|])
    ensures |r| > 0 ==> !IsSpace(r[0])
  {
    if |s| > 0 && IsSpace(s[0]) then TrimLeft(s[1..]) else s
  }

  /** Drops trailing white space: what remains is a prefix of `s` that does not end with a space. */
  function TrimRight(s: string): (r: string)
    ensures |r| <= |s| && r == s[..|r|]
    ensures AllSpace(s[|r|..])
    ensures |r| > 0 ==> !IsSpace(r[|r| - 1])
  {
    if |s| > 0 && IsSpace(s[|s| - 1]) then TrimRight(s[..|s| - 1]) else s
  }

  /** `strings.TrimSpace`. */
  function TrimSpace(s: string): string {
    TrimRight(TrimLeft(s))
  }

  /**
   `strings.TrimSpace` keeps a slice of `s` and drops only white space
   before and after it.
   */
  lemma TrimSpaceSlice(s: string)
    ensures exists a, b :: 0 <= a <= b <= |s| && TrimSpace(s) == s[a..b] && AllSpace(s[..a]) && AllSpace(s[b..])
  {
    var l := TrimLeft(s);
    var r := TrimRight(l);
    var a := |s| - |l|;
    PrefixOfSuffix(s, a, l, r);
    assert TrimSpace(s) == s[a..a + |r|];
  }

  /**
   A prefix `r` of the suffix `l` of `s` from `a` is the slice of `s` from
   `a`, and white space after it in `l` is white space after it in `s`.
   */
  lemma PrefixOfSuffix(s: string, a: nat, l: string, r: string)
    requires a <= |s| && l == s[a..] && AllSpace(s[..a])
    requires |r| <= |l| && r == l[..|r|] && AllSpace(l[|r|..])
    ensures a + |r| <= |s| && r == s[a..a + |r|] && AllSpace(s[a + |r|..])
  {
    assert l[|r|..] == s[a + |r|..];
  }

  /** Neither starts nor ends with white space. */
  predicate IsTrimmed(s: string) {
    |s| > 0 ==> !IsSpace(s[0]) && !IsSpace(s[|s| - 1])
  }

  /** A string without leading or trailing white space is left as it is. */
  lemma TrimSpaceKeepsTrimmed(s: string)
    requires IsTrimmed(s)
    ensures TrimSpace(s) == s
  {
  }

  /** What `strings.TrimSpace` returns neither starts nor ends with white space. */
  lemma TrimSpaceTrimmed(s: string)
    ensures IsTrimmed(TrimSpace(s))
  {
    var l := TrimLeft(s);
    var r := TrimRight(l);
    assert |r| > 0 ==> r[0] == l[0];
  }

  /** Trimming twice is trimming once. */
  lemma TrimSpaceIdempotent(s: string)
    ensures IsTrimmed(TrimSpace(s)) && TrimSpace(TrimSpace(s)) == TrimSpace(s)
  {
    TrimSpaceTrimmed(s);
    TrimSpaceKeepsTrimmed(TrimSpace(s));
  }

  /**
   The pieces that are not blank, each trimmed, in their order: how the
   scraper reads a list of texts where blank entries are skipped.
   */
  function NonBlank(pieces: seq<string>): (kept: seq<string>)
    ensures |kept| <= |pieces|
  {
    if |pieces| == 0 then []
    else
      var t := TrimSpace(pieces[0]);
      var rest := NonBlank(pieces[1..]);
      if t == "" then rest else [t] + rest
  }

  /** Every kept piece is non-blank and trimmed. */
  lemma {:induction false} NonBlankClean(pieces: seq<string>)
    ensures forall k :: 0 <= k < |NonBlank(pieces)| ==> NonBlank(pieces)[k] != "" && IsTrimmed(NonBlank(pieces)[k])
  {
    if |pieces| > 0 {
      var t := TrimSpace(pieces[0]);
      var tail := pieces[1..];
      NonBlankClean(tail);
      if t != "" {
        TrimSpaceTrimmed(pieces[0]);
        forall k | 0 <= k < |NonBlank(pieces)|
          ensures NonBlank(pieces)[k] != "" && IsTrimmed(NonBlank(pieces)[k])
        {
          if k > 0 {
            Shifted(NonBlank(pieces), t, NonBlank(tail), k - 1);
          }
        }
      }
    }
  }

  /** A non-empty sequence is its head in front of its tail; stated generically, as the same equality on strings is costly to prove in place. */
  lemma ConsTail<T>(s: seq<T>)
    requires |s| > 0
    ensures s == [s[0]] + s[1..]
  {
  }

  /** Behind a head, the tail's elements sit one place further on; generic for the same reason as `ConsTail`. */
  lemma Shifted<T>(s: seq<T>, head: T, rest: seq<T>, m: nat)
    requires s == [head] + rest && m < |rest|
    ensures s[m + 1] == rest[m]
  {
  }

  /** Every piece that is not blank is kept, trimmed. */
  lemma {:induction false} NonBlankKeeps(pieces: seq<string>, i: nat)
    requires i < |pieces| && TrimSpace(pieces[i]) != ""
    ensures exists m :: 0 <= m < |NonBlank(pieces)| && NonBlank(pieces)[m] == TrimSpace(pieces[i])
  {
    var tail := pieces[1..];
    var t := TrimSpace(pieces[0]);
    if i == 0 {
      assert NonBlank(pieces)[0] == t;
    } else {
      assert tail[i - 1] == pieces[i];
      NonBlankKeeps(tail, i - 1);
      var m :| 0 <= m < |NonBlank(tail)| && NonBlank(tail)[m] == TrimSpace(pieces[i]);
      if t != "" {
        Shifted(NonBlank(pieces), t, NonBlank(tail), m);
      } else {
        assert NonBlank(pieces) == NonBlank(tail);
      }
    }
  }

  /** Everything kept is some piece, trimmed. */
  lemma {:induction false} NonBlankFromPieces(pieces: seq<string>, t: string)
    requires t in NonBlank(pieces)
    ensures exists i :: 0 <= i < |pieces| && t == TrimSpace(pieces[i])
  {
    if t != TrimSpace(pieces[0]) {
      NonBlankFromPieces(pieces[1..], t);
      var i :| 0 <= i < |pieces| - 1 && t == TrimSpace(pieces[1..][i]);
      assert pieces[1..][i] == pieces[i + 1];
    }
  }

  /** Dropping blanks distributes over concatenation: the kept pieces stay in input order. */
  lemma {:induction false} NonBlankConcat(a: seq<string>, b: seq<string>)
    ensures NonBlank(a + b) == NonBlank(a) + NonBlank(b)
  {
    if |a| == 0 {
      assert a + b == b;
    } else {
      assert (a + b)[0] == a[0] && (a + b)[1..] == a[1..] + b;
      NonBlankConcat(a[1..], b);
    }
  }

  /** Pieces that are already trimmed and non-blank come through unchanged. */
  lemma {:induction false} NonBlankKeepsClean(pieces: seq<string>)
    requires forall k :: 0 <= k < |pieces| ==> pieces[k] != "" && IsTrimmed(pieces[k])
    ensures NonBlank(pieces) == pieces
  {
    if |pieces| > 0 {
      TrimSpaceKeepsTrimmed(pieces[0]);
      var tail := pieces[1..];
      assert forall k :: 0 <= k < |tail| ==> tail[k] == pieces[k + 1];
      NonBlankKeepsClean(tail);
      ConsTail(pieces);
    }
  }

  /** Dropping blanks twice is dropping them once. */
  lemma NonBlankIdempotent(pieces: seq<string>)
    ensures NonBlank(NonBlank(pieces)) == NonBlank(pieces)
  {
    NonBlankClean(pieces);
    NonBlankKeepsClean(NonBlank(pieces));
  }

  /**
   `strings.ToLower` on one character, for ASCII and the basic Cyrillic
   capitals: A-Z and А-Я (U+0410-U+042F) move up by 0x20 to a-z and а-я,
   Ѐ-Џ (U+0400-U+040F) move up by 0x50 to ѐ-џ; everything else is kept.
   */
  function LowerRune(c: char): char {
    if 'A' <= c <= 'Z' then (c as int + 0x20) as char
    else if '\U{0410}' <= c <= '\U{042F}' then (c as int + 0x20) as char
    else if '\U{0400}' <= c <= '\U{040F}' then (c as int + 0x50) as char
    else c
  }

  /** The capitals `LowerRune` folds: ASCII A-Z and the Cyrillic capitals U+0400-U+042F. */
  predicate IsCapital(c: char) {
    ('A' <= c <= 'Z') || ('\U{0400}' <= c <= '\U{042F}')
  }

  /** `strings.ToLower`, character by character: every capital becomes its small letter, no capital is left, and nothing else changes. */
  function ToLower(s: string): (r: string)
    ensures |r| == |s|
    ensures forall i :: 0 <= i < |r| ==> !IsCapital(r[i])
    ensures forall i :: 0 <= i < |s| && !IsCapital(s[i]) ==> r[i] == s[i]
    ensures forall i :: 0 <= i < |s| && IsCapital(s[i]) ==> r[i] == LowerRune(s[i])
  {
    seq(|s|, i requires 0 <= i < |s| => LowerRune(s[i]))
  }

  /**
   The heuristic-2 keywords are reached from their capitalised spellings. The
   spelling with ё (U+0451) lower-cases to itself in small letters, which does
   not contain the keyword spelled with е (U+0435): such a label never fires
   the text test.
   */
  lemma ToLowerKeywords()
    ensures ToLower("СЛЕД") == "след"
    ensures ToLower("NEXT") == "next"
    ensures ToLower("ПОКАЗАТЬ ЕЩЕ") == "показать еще"
    ensures ToLower("Показать ещё") == "показать ещё"
    ensures !Contains(ToLower("Показать ещё"), "показать еще")
  {
    assert ToLower("СЛЕД") == "след";
    assert ToLower("NEXT") == "next";
    assert ToLower("ПОКАЗАТЬ ЕЩЕ") == "показать еще";
    assert ToLower("Показать ещё") == "показать ещё";
    // Both strings have 12 characters, so offset 0 is the only candidate, and they differ at index 11.
    assert "показать ещё"[11] != "показать еще"[11];
  }

  /** `strings.ReplaceAll` of one character by another. */
  function ReplaceChar(s: string, from: char, to: char): (r: string)
    ensures |r| == |s|
  {
    seq(|s|, i requires 0 <= i < |s| => if s[i] == from then to else s[i])
  }

  // ---------------------------------------------------------------------------
  // Decimal numbers
  // ---------------------------------------------------------------------------

  /** The range of Go's `int` on the 64-bit platforms the scraper runs on. */
  const MinInt64: int := -0x8000_0000_0000_0000
  const MaxInt64: int := 0x7FFF_FFFF_FFFF_FFFF

  predicate IsDigit(c: char) {
    '0' <= c <= '9'
  }

  predicate AllDigits(s: string) {
    forall i :: 0 <= i < |s| ==> IsDigit(s[i])
  }

  /** The value of a string of decimal digits, most significant first. */
  function DigitsValue(s: string): nat
    requires AllDigits(s)
  {
    if |s| == 0 then 0 else DigitsValue(s[..|s| - 1]) * 10 + (s[|s| - 1] as int - '0' as int)
  }

  /** `fmt.Sprintf("%d", n)` for a non-negative `n`. */
  function Decimal(n: nat): (r: string)
    ensures |r| > 0 && AllDigits(r)
    ensures r[0] == '0' ==> n == 0
  {
    if n < 10 then ['0' + n as char]
    else Decimal(n / 10) + ['0' + (n % 10) as char]
  }

  /**
   `strconv.Atoi`: an optional sign followed by at least one decimal digit,
   whose value must fit Go's 64-bit `int`; anything else is an error.
   */
  function Atoi(s: string): (r: Option<int>)
    ensures r.Some? ==> MinInt64 <= r.value <= MaxInt64
    ensures r.Some? ==> |s| > 0 && AllDigits(s[1..])
    ensures r.Some? ==> s[0] == '+' || s[0] == '-' || IsDigit(s[0])
    ensures r.Some? ==> (s[0] == '+' || s[0] == '-') ==> |s| > 1
  {
    if |s| == 0 then None
    else
      var signed := s[0] == '+' || s[0] == '-';
      var digits := if signed then s[1..] else s;
      if |digits| == 0 || !AllDigits(digits) then None
      else
        var magnitude: int := DigitsValue(digits);
        var v := if s[0] == '-' then -magnitude else magnitude;
        if MinInt64 <= v <= MaxInt64 then Some(v) else None
  }

  /** Reading back a formatted number gives the number. */
  lemma {:induction false} DecimalValue(n: nat)
    ensures DigitsValue(Decimal(n)) == n
  {
    if n >= 10 {
      DecimalValue(n / 10);
      var d := Decimal(n);
      assert d[..|d| - 1] == Decimal(n / 10);
    }
  }

  /** `strconv.Atoi(fmt.Sprintf("%d", n)) == n` for every `n` an `int` can hold. */
  lemma AtoiDecimal(n: nat)
    requires n <= MaxInt64
    ensures Atoi(Decimal(n)) == Some(n)
  {
    DecimalValue(n);
  }

  /** An explicit sign in front of the digits gives the signed value. */
  lemma AtoiSigned(n: nat)
    requires n <= MaxInt64
    ensures Atoi("+" + Decimal(n)) == Some(n)
    ensures Atoi("-" + Decimal(n)) == Some(-(n as int))
  {
    DecimalValue(n);
    assert ("+" + Decimal(n))[1..] == Decimal(n);
    assert ("-" + Decimal(n))[1..] == Decimal(n);
  }

  /** A number past the 64-bit range is an error, not a wrapped value. */
  lemma AtoiOutOfRange(n: nat)
    requires n > MaxInt64
    ensures Atoi(Decimal(n)) == None
    ensures Atoi("-" + Decimal(n)) == (if n == -MinInt64 then Some(MinInt64) else None)
  {
    DecimalValue(n);
    assert ("-" + Decimal(n))[1..] == Decimal(n);
  }

  /** A leading zero changes nothing: the value is read, not the spelling. */
  lemma AtoiLeadingZero(d: string)
    requires |d| > 0 && AllDigits(d)
    ensures Atoi("0" + d) == Atoi(d)
  {
    LeadingZeroValue(d);
  }

  /** A leading zero adds nothing to a digit string's value. */
  lemma {:induction false} LeadingZeroValue(d: string)
    requires AllDigits(d)
    ensures AllDigits("0" + d) && DigitsValue("0" + d) == DigitsValue(d)
  {
    var z := "0" + d;
    if |d| > 0 {
      var init := d[..|d| - 1];
      LeadingZeroValue(init);
      assert z[..|z| - 1] == "0" + init;
      assert z[|z| - 1] == d[|d| - 1];
    }
  }
}
