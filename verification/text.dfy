/** The two string operations the genre test relies on: Python's
    `str.split(", ")` and `str.lower()` (the latter on ASCII letters only). */
module Text {

  /** The separator both variants split a record's genre field on. */
  const Separator: string := ", "

  predicate StartsWithSeparator(s: string) {
    |s| >= 2 && s[0] == ',' && s[1] == ' '
  }

  predicate ContainsSeparator(s: string) {
    exists k :: 0 <= k < |s| && StartsWithSeparator(s[k..])
  }

  /** `s.split(", ")`: cut at every occurrence of the separator, scanning left
      to right; the empty string gives `[""]`, and adjacent or trailing
      separators give empty pieces. */
  function Split(s: string): (parts: seq<string>)
    ensures |parts| >= 1
    ensures parts[0] <= s
    decreases |s|
  {
    if |s| == 0 then [""]
    else if StartsWithSeparator(s) then [""] + Split(s[2..])
    else
      var rest := Split(s[1..]);
      [[s[0]] + rest[0]] + rest[1..]
  }

  /** `", ".join(parts)`. */
  function Join(parts: seq<string>): string
    decreases |parts|
  {
    if |parts| == 0 then ""
    else if |parts| == 1 then parts[0]
    else parts[0] + Separator + Join(parts[1..])
  }

  lemma JoinCons(head: string, tail: seq<string>)
    requires |tail| >= 1
    ensures Join([head] + tail) == head + Separator + Join(tail)
  {
    assert ([head] + tail)[1..] == tail;
  }

  /** Joining the pieces again gives back the original string. */
  lemma {:induction false} JoinSplit(s: string)
    ensures Join(Split(s)) == s
    decreases |s|
  {
    if |s| == 0 {
    } else if StartsWithSeparator(s) {
      JoinSplit(s[2..]);
      JoinSplitAtSeparator(s);
    } else {
      JoinSplit(s[1..]);
      JoinSplitAtChar(s);
    }
  }

  lemma JoinSplitAtSeparator(s: string)
    requires StartsWithSeparator(s) && Join(Split(s[2..])) == s[2..]
    ensures Join(Split(s)) == s
  {
    JoinCons("", Split(s[2..]));
    assert s == Separator + s[2..];
  }

  lemma JoinSplitAtChar(s: string)
    requires |s| > 0 && !StartsWithSeparator(s) && Join(Split(s[1..])) == s[1..]
    ensures Join(Split(s)) == s
  {
    var rest := Split(s[1..]);
    assert Split(s) == [[s[0]] + rest[0]] + rest[1..];
    JoinPrepend(s[0], rest);
    assert s == [s[0]] + s[1..];
  }

  /** Putting a character in front of the first piece puts it in front of
      the joined string. */
  lemma ConcatRegroup(a: string, b: string, c: string, d: string)
    ensures (a + b) + c + d == a + (b + c + d)
  {
  }

  lemma JoinPrepend(c: char, parts: seq<string>)
    requires |parts| >= 1
    ensures Join([[c] + parts[0]] + parts[1..]) == [c] + Join(parts)
  {
    var first, tail := parts[0], parts[1..];
    assert parts == [first] + tail;
    if tail == [] {
      assert [[c] + first] + tail == [[c] + first];
    } else {
      calc {
        Join([[c] + first] + tail);
        { JoinCons([c] + first, tail); }
        ([c] + first) + Separator + Join(tail);
        { ConcatRegroup([c], first, Separator, Join(tail)); }
        [c] + (first + Separator + Join(tail));
        { JoinCons(first, tail); }
        [c] + Join(parts);
      }
    }
  }

  /** No piece contains the separator: every occurrence was cut. */
  lemma {:induction false} SplitPiecesHaveNoSeparator(s: string)
    ensures forall piece :: piece in Split(s) ==> !ContainsSeparator(piece)
    decreases |s|
  {
    if |s| == 0 {
      assert Split(s) == [""];
    } else if StartsWithSeparator(s) {
      SplitPiecesHaveNoSeparator(s[2..]);
    } else {
      var rest := Split(s[1..]);
      SplitPiecesHaveNoSeparator(s[1..]);
      var head := [s[0]] + rest[0];
      assert !ContainsSeparator(rest[0]);
      forall k | 0 <= k < |head|
        ensures !StartsWithSeparator(head[k..])
      {
        if k > 0 {
          assert head[k..] == rest[0][k - 1..];
        }
      }
      forall piece | piece in Split(s)
        ensures !ContainsSeparator(piece)
      {
        if piece != head {
          assert piece in rest[1..];
        }
      }
    }
  }

  /** A string without the separator is a single piece. */
  lemma {:induction false} SplitWithoutSeparator(s: string)
    requires !ContainsSeparator(s)
    ensures Split(s) == [s]
    decreases |s|
  {
    if |s| > 0 {
      assert !StartsWithSeparator(s[0..]);
      assert !ContainsSeparator(s[1..]) by {
        forall k | 0 <= k < |s[1..]| ensures !StartsWithSeparator(s[1..][k..]) {
          assert s[1..][k..] == s[k + 1..];
        }
      }
      SplitWithoutSeparator(s[1..]);
      assert s == [s[0]] + s[1..];
    }
  }

  predicate IsUpper(c: char) {
    'A' <= c <= 'Z'
  }

  /** ASCII case folding: `'A'..'Z'` to `'a'..'z'`, everything else kept. */
  function LowerChar(c: char): (r: char)
    ensures !IsUpper(r)
    ensures !IsUpper(c) ==> r == c
    ensures IsUpper(c) ==> 'a' <= r <= 'z' && r as int - 'a' as int == c as int - 'A' as int
  {
    if 'A' <= c <= 'Z' then (c as int - 'A' as int + 'a' as int) as char else c
  }

  /** Two characters that ASCII case folding does not tell apart: the same
      character, or a capital and its own small letter, either way round. */
  predicate SameIgnoringCase(x: char, y: char) {
    || x == y
    || (IsUpper(x) && y as int == x as int + ('a' as int - 'A' as int))
    || (IsUpper(y) && x as int == y as int + ('a' as int - 'A' as int))
  }

  /** Folding identifies exactly the characters that differ only in case. */
  lemma LowerCharSameIgnoringCase(x: char, y: char)
    ensures LowerChar(x) == LowerChar(y) <==> SameIgnoringCase(x, y)
  {
  }

  /** `s.lower()`, folding ASCII letters only. */
  function Lower(s: string): (r: string)
    ensures |r| == |s|
    ensures forall i :: 0 <= i < |s| ==> SameIgnoringCase(s[i], r[i]) && !IsUpper(r[i])
  {
    seq(|s|, i requires 0 <= i < |s| => LowerChar(s[i]))
  }

  /** Two strings lower to the same string exactly when they have the same
      length and agree position by position up to case. */
  lemma LowerSameIgnoringCase(a: string, b: string)
    ensures Lower(a) == Lower(b) <==>
      |a| == |b| && forall i :: 0 <= i < |a| ==> SameIgnoringCase(a[i], b[i])
  {
    if |a| == |b| {
      forall i | 0 <= i < |a|
        ensures Lower(a)[i] == Lower(b)[i] <==> SameIgnoringCase(a[i], b[i])
      {
        LowerCharSameIgnoringCase(a[i], b[i]);
      }
    }
  }

  /** Lowering twice is lowering once, so comparing lowered strings is an
      equivalence between the original ones. */
  lemma LowerIdempotent(s: string)
    ensures Lower(Lower(s)) == Lower(s)
  {
    assert forall i :: 0 <= i < |s| ==> LowerChar(LowerChar(s[i])) == LowerChar(s[i]);
  }
}
