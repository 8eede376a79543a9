/**
  The few JavaScript string operations the application relies on, stated over
  `string` (a sequence of characters): `trim()`, `split(/\s+/)`, `includes`,
  `toLowerCase()`, `Array.prototype.join` and the `||` fallback on strings.
 */
module JsText {
  import opened Optional

  /** The characters JavaScript's `\s` class and `String.prototype.trim` both
      treat as blank: the WhiteSpace and LineTerminator code points of ECMAScript. */
  predicate IsSpace(c: char) {
    var n := c as int;
    || n == 0x09 || n == 0x0A || n == 0x0B || n == 0x0C || n == 0x0D || n == 0x20
    || n == 0xA0 || n == 0x1680 || (0x2000 <= n <= 0x200A) || n == 0x2028
    || n == 0x2029 || n == 0x202F || n == 0x205F || n == 0x3000 || n == 0xFEFF
  }

  predicate AllSpace(s: string) {
    forall i :: 0 <= i < |s| ==> IsSpace(s[i])
  }

  predicate NoSpace(s: string) {
    forall i :: 0 <= i < |s| ==> !IsSpace(s[i])
  }

  /** JavaScript truthiness of an optional string: present and non-empty. */
  predicate Truthy(v: Option<string>) {
    v.Some? && v.value != ""
  }

  /** `v || fallback` for an optional string. */
  function Or(v: Option<string>, fallback: string): string {
    if Truthy(v) then v.value else fallback
  }

  /* ---------------------------------------------------------------- trim */

  /** The length of the blank run that starts `s`. */
  function LeadingBlanks(s: string): (n: nat)
    ensures n <= |s|
    ensures forall i :: 0 <= i < n ==> IsSpace(s[i])
    ensures n < |s| ==> !IsSpace(s[n])
  {
    if |s| > 0 && IsSpace(s[0]) then 1 + LeadingBlanks(s[1..]) else 0
  }

  /** The length of the blank run that ends `s`. */
  function TrailingBlanks(s: string): (n: nat)
    ensures n <= |s|
    ensures forall i :: |s| - n <= i < |s| ==> IsSpace(s[i])
    ensures n < |s| ==> !IsSpace(s[|s| - 1 - n])
  {
    if |s| > 0 && IsSpace(s[|s| - 1]) then 1 + TrailingBlanks(s[..|s| - 1]) else 0
  }

  function TrimStart(s: string): string {
    s[LeadingBlanks(s)..]
  }

  function TrimEnd(s: string): string {
    s[..|s| - TrailingBlanks(s)]
  }

  /** `s.trim()`: leading blanks removed, then trailing ones. */
  function Trim(s: string): string {
    TrimEnd(TrimStart(s))
  }

  /** Where `trim()` cuts: the kept infix `s[i..j]` and the two blank ends. */
  lemma TrimCut(s: string) returns (i: nat, j: nat)
    ensures i <= j <= |s| && s[i..j] == Trim(s) && AllSpace(s[..i]) && AllSpace(s[j..])
    ensures i < |s| ==> !IsSpace(s[i])
  {
    i := LeadingBlanks(s);
    var t := s[i..];
    j := i + (|t| - TrailingBlanks(t));
    assert Trim(s) == s[i..j];
    assert AllSpace(s[j..]) by {
      forall k | 0 <= k < |s| - j
        ensures IsSpace(s[j..][k])
      {
        assert s[j..][k] == t[j - i + k];
      }
    }
  }

  /** `trim()` keeps an infix of `s` and cuts only blanks; what it keeps neither
      starts nor ends with a blank; it keeps nothing exactly when `s` is all blanks. */
  lemma TrimIsInfix(s: string)
    ensures exists i, j :: 0 <= i <= j <= |s| && s[i..j] == Trim(s) && AllSpace(s[..i]) && AllSpace(s[j..])
    ensures Trim(s) == [] || (!IsSpace(Trim(s)[0]) && !IsSpace(Trim(s)[|Trim(s)| - 1]))
    ensures Trim(s) == [] <==> AllSpace(s)
  {
    var i, j := TrimCut(s);
    var t := s[i..];
    var r := Trim(s);
    if r != [] {
      assert r[0] == s[i];
      assert r[|r| - 1] == t[|t| - 1 - TrailingBlanks(t)];
    } else {
      assert s == s[..i] + s[j..];
      AllSpaceAppend(s[..i], s[j..]);
    }
  }

  lemma AllSpaceAppend(a: string, b: string)
    requires AllSpace(a) && AllSpace(b)
    ensures AllSpace(a + b)
  {
  }

  /** A string that neither starts nor ends with a blank is its own trim. */
  lemma TrimOfTrimmed(s: string)
    requires s == [] || (!IsSpace(s[0]) && !IsSpace(s[|s| - 1]))
    ensures Trim(s) == s
  {
    assert LeadingBlanks(s) == 0;
    assert s[0..] == s;
    assert TrailingBlanks(s) == 0;
    assert s[..|s|] == s;
  }

  /* --------------------------------------------------------------- split */

  /** The characters of `s` that are not blank, in order. */
  function RemoveSpaces(s: string): string {
    if s == [] then [] else (if IsSpace(s[0]) then [] else [s[0]]) + RemoveSpaces(s[1..])
  }

  function Concat(parts: seq<string>): string {
    if parts == [] then [] else parts[0] + Concat(parts[1..])
  }

  /** The number of maximal blank runs in `s`, counted by their last character:
      a blank that is the end of `s` or is followed by a non-blank. */
  function SpaceRuns(s: string): nat {
    if s == [] then 0
    else (if IsSpace(s[0]) && (|s| == 1 || !IsSpace(s[1])) then 1 else 0) + SpaceRuns(s[1..])
  }

  predicate NoSpacePieces(parts: seq<string>) {
    forall k :: 0 <= k < |parts| ==> NoSpace(parts[k])
  }

  predicate NonEmptyPieces(parts: seq<string>) {
    forall k :: 0 <= k < |parts| ==> parts[k] != []
  }

  /** `s.split(/\s+/)`: the pieces between maximal blank runs. */
  function Split(s: string): seq<string> {
    SplitFrom(s, [])
  }

  /** Split `s` when `field` holds the characters already read into the
      current piece: a blank run closes the piece, a non-blank extends it. */
  function SplitFrom(s: string, field: string): seq<string>
    decreases |s|
  {
    if s == [] then [field]
    else if IsSpace(s[0]) then [field] + SplitFrom(TrimStart(s), [])
    else SplitFrom(s[1..], field + [s[0]])
  }

  /** What `split(/\s+/)` yields: one more piece than there are blank runs
      (so `""` gives `[""]`); blank-free pieces that together hold exactly the
      non-blank characters; and, when `s` has no blank at either end, no empty
      piece (a blank run at an end would give one). */
  lemma {:induction false} SplitPieces(s: string)
    ensures |Split(s)| == 1 + SpaceRuns(s)
    ensures NoSpacePieces(Split(s))
    ensures Concat(Split(s)) == RemoveSpaces(s)
    ensures s != [] && !IsSpace(s[0]) && !IsSpace(s[|s| - 1]) ==> NonEmptyPieces(Split(s))
  {
    SplitFromCount(s, []);
    SplitFromWords(s, []);
    if s != [] && !IsSpace(s[0]) && !IsSpace(s[|s| - 1]) {
      SplitFromNonEmpty(s, []);
    }
  }

  lemma {:induction false} SplitFromCount(s: string, field: string)
    ensures |SplitFrom(s, field)| == 1 + SpaceRuns(s)
    decreases |s|
  {
    if s != [] {
      if IsSpace(s[0]) {
        SpaceRunsSkipRun(s);
        SplitFromCount(TrimStart(s), []);
      } else {
        SplitFromCount(s[1..], field + [s[0]]);
      }
    }
  }

  lemma {:induction false} SplitFromWords(s: string, field: string)
    requires NoSpace(field)
    ensures NoSpacePieces(SplitFrom(s, field))
    ensures Concat(SplitFrom(s, field)) == field + RemoveSpaces(s)
  {
    SplitFromNoSpace(s, field);
    SplitFromConcat(s, field);
  }

  lemma {:induction false} SplitFromNoSpace(s: string, field: string)
    requires NoSpace(field)
    ensures NoSpacePieces(SplitFrom(s, field))
    decreases |s|
  {
    if s != [] {
      if IsSpace(s[0]) {
        SplitFromNoSpace(TrimStart(s), []);
        PrependPiece(field, SplitFrom(TrimStart(s), []));
      } else {
        var grown := field + [s[0]];
        assert NoSpace(grown);
        SplitFromNoSpace(s[1..], grown);
      }
    }
  }

  lemma {:induction false} SplitFromConcat(s: string, field: string)
    ensures Concat(SplitFrom(s, field)) == field + RemoveSpaces(s)
    decreases |s|
  {
    if s == [] {
      assert Concat([field]) == field + Concat([]);
    } else if IsSpace(s[0]) {
      var tail := SplitFrom(TrimStart(s), []);
      SplitFromConcat(TrimStart(s), []);
      RemoveSpacesOfTrimStart(s);
      PrependPiece(field, tail);
      assert RemoveSpaces(s) == RemoveSpaces(s[1..]);
    } else {
      var grown := field + [s[0]];
      SplitFromConcat(s[1..], grown);
      assert RemoveSpaces(s) == [s[0]] + RemoveSpaces(s[1..]);
      assert grown + RemoveSpaces(s[1..]) == field + RemoveSpaces(s);
    }
  }

  lemma {:induction false} SplitFromNonEmpty(s: string, field: string)
    requires field != [] || (s != [] && !IsSpace(s[0]))
    requires s == [] || !IsSpace(s[|s| - 1])
    ensures NonEmptyPieces(SplitFrom(s, field))
    decreases |s|
  {
    if s != [] {
      if IsSpace(s[0]) {
        var rest := TrimStart(s);
        var n := LeadingBlanks(s);
        assert n < |s| by {
          assert !IsSpace(s[|s| - 1]);
        }
        assert rest != [] && rest[0] == s[n] && rest[|rest| - 1] == s[|s| - 1];
        SplitFromNonEmpty(rest, []);
        PrependPiece(field, SplitFrom(rest, []));
      } else {
        SplitFromNonEmpty(s[1..], field + [s[0]]);
      }
    }
  }

  lemma PrependPiece(field: string, tail: seq<string>)
    ensures Concat([field] + tail) == field + Concat(tail)
    ensures NoSpace(field) && NoSpacePieces(tail) ==> NoSpacePieces([field] + tail)
    ensures field != [] && NonEmptyPieces(tail) ==> NonEmptyPieces([field] + tail)
  {
    assert ([field] + tail)[1..] == tail;
  }

  lemma {:induction false} SpaceRunsSkipRun(s: string)
    requires |s| > 0 && IsSpace(s[0])
    ensures SpaceRuns(s) == 1 + SpaceRuns(TrimStart(s))
    decreases |s|
  {
    if |s| > 1 && IsSpace(s[1]) {
      SpaceRunsSkipRun(s[1..]);
      assert TrimStart(s) == TrimStart(s[1..]);
    } else {
      assert TrimStart(s) == s[1..];
    }
  }

  lemma {:induction false} RemoveSpacesAppend(a: string, b: string)
    ensures RemoveSpaces(a + b) == RemoveSpaces(a) + RemoveSpaces(b)
    decreases |a|
  {
    if a != [] {
      assert (a + b)[0] == a[0];
      assert (a + b)[1..] == a[1..] + b;
      RemoveSpacesAppend(a[1..], b);
    } else {
      assert a + b == b;
    }
  }

  lemma {:induction false} RemoveSpacesOfBlanks(s: string)
    requires AllSpace(s)
    ensures RemoveSpaces(s) == []
    decreases |s|
  {
    if s != [] {
      RemoveSpacesOfBlanks(s[1..]);
    }
  }

  lemma RemoveSpacesOfTrimStart(s: string)
    ensures RemoveSpaces(TrimStart(s)) == RemoveSpaces(s)
  {
    var k := LeadingBlanks(s);
    assert s == s[..k] + s[k..];
    RemoveSpacesAppend(s[..k], s[k..]);
    RemoveSpacesOfBlanks(s[..k]);
  }

  /** Trimming removes only blanks. */
  lemma RemoveSpacesOfTrim(s: string)
    ensures RemoveSpaces(Trim(s)) == RemoveSpaces(s)
  {
    var i, j := TrimCut(s);
    assert s == s[..i] + (s[i..j] + s[j..]);
    RemoveSpacesAppend(s[..i], s[i..j] + s[j..]);
    RemoveSpacesAppend(s[i..j], s[j..]);
    RemoveSpacesOfBlanks(s[..i]);
    RemoveSpacesOfBlanks(s[j..]);
  }

  /* ---------------------------------------------------------------- join */

  /** `parts.join(sep)`. */
  function JoinWith(parts: seq<string>, sep: string): string {
    if |parts| == 0 then ""
    else if |parts| == 1 then parts[0]
    else parts[0] + sep + JoinWith(parts[1..], sep)
  }

  /** `join` puts the pieces in order with one separator between neighbours:
      nothing for no pieces, the piece itself for one, and otherwise the first
      piece up front and exactly `|parts| - 1` separators in the length. */
  lemma {:induction false} JoinPieces(parts: seq<string>, sep: string)
    ensures parts == [] ==> JoinWith(parts, sep) == ""
    ensures |parts| == 1 ==> JoinWith(parts, sep) == parts[0]
    ensures |parts| >= 1 ==> |JoinWith(parts, sep)| == |Concat(parts)| + (|parts| - 1) * |sep|
    ensures |parts| >= 1 ==> JoinWith(parts, sep)[..|parts[0]|] == parts[0]
    decreases |parts|
  {
    if |parts| > 1 {
      JoinPieces(parts[1..], sep);
    }
  }

  /* ------------------------------------------------- includes, lowercase */

  predicate StartsWith(s: string, prefix: string) {
    |prefix| <= |s| && s[..|prefix|] == prefix
  }

  /** `s.includes(sub)`: `sub` occurs somewhere in `s`. */
  predicate Contains(s: string, sub: string)
    decreases |s|
  {
    StartsWith(s, sub) || (s != [] && Contains(s[1..], sub))
  }

  /** Every occurrence counts: `sub` is found wherever it sits in the string. */
  lemma {:induction false} ContainsInfix(before: string, sub: string, after: string)
    ensures Contains(before + sub + after, sub)
    decreases |before|
  {
    var s := before + sub + after;
    if before == [] {
      assert s[..|sub|] == sub;
    } else {
      assert s[1..] == before[1..] + sub + after;
      ContainsInfix(before[1..], sub, after);
    }
  }

  /** Conversely, `includes` only answers true for a real occurrence: `sub`
      sits at some index `k` of `s`. */
  lemma {:induction false} ContainsAt(s: string, sub: string) returns (k: nat)
    requires Contains(s, sub)
    ensures k + |sub| <= |s| && s[k..k + |sub|] == sub
    decreases |s|
  {
    if StartsWith(s, sub) {
      k := 0;
    } else {
      var j := ContainsAt(s[1..], sub);
      k := j + 1;
      assert s[k..k + |sub|] == s[1..][j..j + |sub|];
    }
  }

  /** The same as a split: `s` is some prefix, then `sub`, then some suffix. */
  lemma ContainsWitness(s: string, sub: string)
    requires Contains(s, sub)
    ensures exists before, after :: s == before + sub + after
  {
    var k := ContainsAt(s, sub);
    assert s == s[..k] + sub + s[k + |sub|..];
  }

  /** A string lacking the first character of `sub` cannot contain `sub`. */
  lemma {:induction false} MissingFirstChar(s: string, sub: string)
    requires sub != [] && sub[0] !in s
    ensures !Contains(s, sub)
    decreases |s|
  {
    if s != [] && |sub| <= |s| {
      assert s[0] in s;
      assert s[..|sub|][0] != sub[0];
    }
    if s != [] {
      assert forall c :: c in s[1..] ==> c in s;
      MissingFirstChar(s[1..], sub);
    }
  }

  /** `toLowerCase()` on the ASCII letters; every other character is kept. */
  function LowerChar(c: char): char {
    if 'A' <= c <= 'Z' then (c as int + 32) as char else c
  }

  function ToLower(s: string): (r: string)
    ensures |r| == |s|
    ensures forall i :: 0 <= i < |s| ==> r[i] == LowerChar(s[i])
  {
    seq(|s|, i requires 0 <= i < |s| => LowerChar(s[i]))
  }

  /** Lower-casing preserves occurrences: whatever `s` contains, its
      lower-cased form contains lower-cased. */
  lemma {:induction false} ContainsLowered(s: string, sub: string)
    requires Contains(s, sub)
    ensures Contains(ToLower(s), ToLower(sub))
    decreases |s|
  {
    if StartsWith(s, sub) {
      assert ToLower(s)[..|sub|] == ToLower(sub);
    } else {
      assert ToLower(s)[1..] == ToLower(s[1..]);
      ContainsLowered(s[1..], sub);
    }
  }
}
