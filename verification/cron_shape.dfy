/**
  The one structural test the application applies to a CRON expression, on
  the server after generation and in the page before a description request:
  trim, split on runs of blanks, and accept exactly 5 or 6 fields. Field
  contents (ranges, steps, lists) are never examined.
 */
module CronShape {
  import opened JsText

  /** `expr.trim().split(/\s+/)`. */
  function Fields(expr: string): seq<string> {
    Split(Trim(expr))
  }

  /** The field-count test: `parts.length` is neither below 5 nor above 6. */
  predicate HasCronShape(expr: string) {
    var n := |Fields(expr)|;
    !(n < 5 || n > 6)
  }

  /** A blank expression yields the single empty field `""`; otherwise every
      field is a non-empty blank-free word. Either way the fields hold exactly
      the non-blank characters of `expr`, and there is one more field than
      there are blank runs inside the trimmed text. */
  lemma FieldsAreWords(expr: string)
    ensures |Fields(expr)| == 1 + SpaceRuns(Trim(expr))
    ensures NoSpacePieces(Fields(expr))
    ensures Concat(Fields(expr)) == RemoveSpaces(expr)
    ensures AllSpace(expr) ==> Fields(expr) == [""]
    ensures !AllSpace(expr) ==> NonEmptyPieces(Fields(expr))
  {
    TrimIsInfix(expr);
    RemoveSpacesOfTrim(expr);
    SplitPieces(Trim(expr));
  }

  /** A blank expression never has the shape, since it splits into one field;
      one that has the shape is therefore non-empty. */
  lemma BlankHasNoShape(expr: string)
    ensures AllSpace(expr) ==> !HasCronShape(expr)
    ensures HasCronShape(expr) ==> expr != ""
  {
    TrimIsInfix(expr);
  }

  /** Reading a blank-free word keeps the current piece open. */
  lemma {:induction false} SplitFromWord(word: string, rest: string, field: string)
    requires NoSpace(word) && NoSpace(field)
    ensures NoSpace(field + word)
    ensures SplitFrom(word + rest, field) == SplitFrom(rest, field + word)
    decreases |word|
  {
    if word == [] {
      assert word + rest == rest;
      assert field + word == field;
    } else {
      var s := word + rest;
      assert s[0] == word[0];
      assert s[1..] == word[1..] + rest;
      assert (field + [word[0]]) + word[1..] == field + word;
      SplitFromWord(word[1..], rest, field + [word[0]]);
    }
  }

  /** The first and last characters of a single-space join of non-empty words. */
  lemma {:induction false} JoinEnds(words: seq<string>)
    requires |words| >= 1 && NonEmptyPieces(words)
    ensures JoinWith(words, " ") != []
    ensures JoinWith(words, " ")[0] == words[0][0]
    ensures var j := JoinWith(words, " "); var w := words[|words| - 1]; j[|j| - 1] == w[|w| - 1]
    decreases |words|
  {
    if |words| > 1 {
      JoinEnds(words[1..]);
    }
  }

  lemma {:induction false} SplitFromJoin(words: seq<string>, field: string)
    requires |words| >= 1 && NonEmptyPieces(words) && NoSpacePieces(words) && NoSpace(field)
    ensures SplitFrom(JoinWith(words, " "), field) == [field + words[0]] + words[1..]
    decreases |words|
  {
    if |words| == 1 {
      SplitFromWord(words[0], [], field);
      assert words[0] + [] == words[0];
    } else {
      var tail := JoinWith(words[1..], " ");
      JoinEnds(words[1..]);
      assert JoinWith(words, " ") == words[0] + (" " + tail);
      SplitFromWord(words[0], " " + tail, field);
      assert TrimStart(" " + tail) == tail by {
        assert NoSpace(words[1]);
        assert LeadingBlanks(" " + tail) == 1 + LeadingBlanks(tail) by {
          assert (" " + tail)[1..] == tail;
        }
        assert LeadingBlanks(tail) == 0;
      }
      SplitFromJoin(words[1..], []);
      assert [] + words[1] == words[1];
      HeadAndTail(words[1..]);
    }
  }

  lemma HeadAndTail<T>(xs: seq<T>)
    requires |xs| >= 1
    ensures [xs[0]] + xs[1..] == xs
  {
  }

  /** Round trip: joining non-empty blank-free words with single spaces and
      reading the fields back yields the same words. */
  lemma {:induction false} FieldsOfJoin(words: seq<string>)
    requires |words| >= 1 && NonEmptyPieces(words) && NoSpacePieces(words)
    ensures Fields(JoinWith(words, " ")) == words
  {
    JoinIsTrimmed(words);
    SplitOfJoin(words);
  }

  lemma JoinIsTrimmed(words: seq<string>)
    requires |words| >= 1 && NonEmptyPieces(words) && NoSpacePieces(words)
    ensures Trim(JoinWith(words, " ")) == JoinWith(words, " ")
  {
    var j := JoinWith(words, " ");
    var first, last := words[0], words[|words| - 1];
    JoinEnds(words);
    assert NoSpace(first) && NoSpace(last);
    assert !IsSpace(j[0]) by { assert j[0] == first[0]; }
    assert !IsSpace(j[|j| - 1]) by { assert j[|j| - 1] == last[|last| - 1]; }
    TrimOfTrimmed(j);
  }

  lemma {:induction false} SplitOfJoin(words: seq<string>)
    requires |words| >= 1 && NonEmptyPieces(words) && NoSpacePieces(words)
    ensures Split(JoinWith(words, " ")) == words
  {
    SplitFromJoin(words, []);
    var empty: string := [];
    assert empty + words[0] == words[0];
    HeadAndTail(words);
  }

  /** Any 5 or 6 non-empty blank-free words joined by spaces pass the field-count
      test, and no other number of words does. */
  lemma {:induction false} JoinedWordsShape(words: seq<string>)
    requires |words| >= 1 && NonEmptyPieces(words) && NoSpacePieces(words)
    ensures HasCronShape(JoinWith(words, " ")) <==> |words| == 5 || |words| == 6
  {
    FieldsOfJoin(words);
  }

  /** The other direction: an expression with the shape is 5 or 6 non-empty
      blank-free words, and normalising its blanks to single spaces keeps them. */
  lemma {:induction false} ShapeNormalForm(expr: string)
    requires HasCronShape(expr)
    ensures var fs := Fields(expr);
              && (|fs| == 5 || |fs| == 6)
              && NonEmptyPieces(fs) && NoSpacePieces(fs)
              && Concat(fs) == RemoveSpaces(expr)
              && Fields(JoinWith(fs, " ")) == fs
  {
    BlankHasNoShape(expr);
    FieldsAreWords(expr);
    FieldsOfJoin(Fields(expr));
  }
}
