/** The string operations the spider applies to cell texts and to the lines of list.csv. */
module Text {

  /** `s` with every comma removed, as `s.replace(',', '')` gives it. */
  function StripCommas(s: string): (r: string)
    ensures ',' !in r
    ensures ',' !in s ==> r == s
  {
    if s == [] then []
    else if s[0] == ',' then StripCommas(s[1..])
    else [s[0]] + StripCommas(s[1..])
  }

  /** Removing commas keeps every other character, as often as it occurs. */
  lemma {:induction false} StripCommasKeepsOthers(s: string)
    ensures multiset(StripCommas(s)) == multiset(s)[',' := 0]
  {
    if s != [] {
      assert s == [s[0]] + s[1..];
      StripCommasKeepsOthers(s[1..]);
    }
  }

  /** Removing commas commutes with concatenation. */
  lemma {:induction false} StripCommasAppend(a: string, b: string)
    ensures StripCommas(a + b) == StripCommas(a) + StripCommas(b)
  {
    if a != [] {
      assert (a + b)[0] == a[0];
      assert (a + b)[1..] == a[1..] + b;
      StripCommasAppend(a[1..], b);
      if a[0] == ',' {
        assert StripCommas(a + b) == StripCommas(a[1..] + b);
      } else {
        assert StripCommas(a + b) == [a[0]] + StripCommas(a[1..] + b);
        assert StripCommas(a) == [a[0]] + StripCommas(a[1..]);
      }
    } else {
      assert a + b == b;
    }
  }

  /** The text before the first comma of `s`, or all of `s` when it has none: `s.split(',')[0]`. */
  function FirstField(s: string): (r: string)
    ensures r <= s
    ensures ',' !in r
    ensures |r| < |s| ==> s[|r|] == ','
  {
    if s == [] || s[0] == ',' then [] else [s[0]] + FirstField(s[1..])
  }

  /** A comma-free field followed by a comma is exactly what `FirstField` gives back. */
  lemma {:induction false} FirstFieldOfPrefix(field: string, rest: string)
    requires ',' !in field
    ensures FirstField(field + "," + rest) == field
  {
    if field != [] {
      assert (field + "," + rest)[1..] == field[1..] + "," + rest;
      FirstFieldOfPrefix(field[1..], rest);
    }
  }

  /** The index just past the first line of `s`: after its first '\n', or the end of `s`. */
  function LineEnd(s: string): (k: nat)
    requires s != []
    ensures 0 < k <= |s|
    ensures '\n' !in s[..k - 1]
    ensures k < |s| ==> s[k - 1] == '\n'
  {
    if s[0] == '\n' || |s| == 1 then 1
    else
      var k := 1 + LineEnd(s[1..]);
      assert s[..k - 1] == [s[0]] + s[1..][..k - 2];
      k
  }

  /** Any position that ends a '\n'-free run with a '\n' is the first line end. */
  lemma {:induction false} LineEndAt(s: string, j: nat)
    requires 0 < j <= |s|
    requires '\n' !in s[..j - 1]
    requires s[j - 1] == '\n'
    ensures LineEnd(s) == j
  {
    if j > 1 {
      assert s[0] in s[..j - 1];
      assert s[1..][..j - 2] == s[1..j - 1];
      assert s[1..j - 1] == s[..j - 1][1..];
      LineEndAt(s[1..], j - 1);
    }
  }

  /** The lines of `s`, each keeping its '\n', as `readlines()` returns them. */
  function Lines(s: string): (ls: seq<string>)
    decreases |s|
  {
    if s == [] then [] else var k := LineEnd(s); [s[..k]] + Lines(s[k..])
  }

  /** Joins lines back into one text. */
  function Concat(ls: seq<string>): string
  {
    if ls == [] then [] else ls[0] + Concat(ls[1..])
  }

  /**
   * Splitting into lines loses nothing, every line but the last ends with '\n', and no line holds
   * a '\n' before its last character: a corollary joining LinesConcat and LinesShape in one statement.
   */
  lemma LinesPartition(s: string)
    ensures Concat(Lines(s)) == s
    ensures forall i :: 0 <= i < |Lines(s)| ==> Lines(s)[i] != [] && '\n' !in Lines(s)[i][..|Lines(s)[i]| - 1]
    ensures forall i :: 0 <= i < |Lines(s)| - 1 ==> Lines(s)[i][|Lines(s)[i]| - 1] == '\n'
  {
    LinesConcat(s);
    LinesShape(s);
  }

  /** Joining the lines gives the text back. */
  lemma {:induction false} LinesConcat(s: string)
    ensures Concat(Lines(s)) == s
    decreases |s|
  {
    if s != [] {
      var k := LineEnd(s);
      var line, rest := s[..k], s[k..];
      assert s == line + rest;
      assert Lines(s) == [line] + Lines(rest);
      LinesConcat(rest);
      ConcatCons(line, Lines(rest));
    }
  }

  /** Joining a line and more lines is that line followed by the rest joined. */
  lemma ConcatCons(line: string, ls: seq<string>)
    ensures Concat([line] + ls) == line + Concat(ls)
  {
    assert ([line] + ls)[1..] == ls;
  }

  /** Each line is non-empty, holds '\n' only as its last character, and has one there unless it is the last line. */
  lemma {:induction false} LinesShape(s: string)
    ensures forall i :: 0 <= i < |Lines(s)| ==> Lines(s)[i] != [] && '\n' !in Lines(s)[i][..|Lines(s)[i]| - 1]
    ensures forall i :: 0 <= i < |Lines(s)| - 1 ==> Lines(s)[i][|Lines(s)[i]| - 1] == '\n'
    decreases |s|
  {
    if s != [] {
      var k := LineEnd(s);
      var ls, rest := Lines(s), Lines(s[k..]);
      LinesShape(s[k..]);
      assert ls == [s[..k]] + rest;
      assert s[..k][..k - 1] == s[..k - 1];
      forall i | 0 <= i < |ls|
        ensures ls[i] != [] && '\n' !in ls[i][..|ls[i]| - 1]
      {
        if i > 0 {
          assert ls[i] == rest[i - 1];
        }
      }
      forall i | 0 <= i < |ls| - 1
        ensures ls[i][|ls[i]| - 1] == '\n'
      {
        if i > 0 {
          assert ls[i] == rest[i - 1];
        } else {
          assert s[k..] != [];
        }
      }
    }
  }

  /** A text that is empty or ends with '\n': appending to it starts a new line. */
  predicate EndsLine(s: string)
  {
    s == [] || s[|s| - 1] == '\n'
  }

  /** Text appended after a complete last line contributes its own lines, unchanged. */
  lemma {:induction false} LinesAppend(a: string, b: string)
    requires EndsLine(a)
    ensures Lines(a + b) == Lines(a) + Lines(b)
    decreases |a|
  {
    if a != [] {
      var s, k := a + b, LineEnd(a);
      assert LineEnd(s) == k by {
        assert a[..k - 1] == s[..k - 1];
        assert s[k - 1] == a[k - 1];
        LineEndAt(s, k);
      }
      assert s[..k] == a[..k] && s[k..] == a[k..] + b;
      assert EndsLine(a[k..]) by {
        if a[k..] != [] {
          assert a[k..][|a[k..]| - 1] == a[|a| - 1];
        }
      }
      LinesAppend(a[k..], b);
      ConcatAssoc([a[..k]], Lines(a[k..]), Lines(b));
    } else {
      assert a + b == b;
    }
  }

  /** Sequence concatenation is associative. */
  lemma ConcatAssoc<T>(a: seq<T>, b: seq<T>, c: seq<T>)
    ensures (a + b) + c == a + (b + c)
  {
  }

  /** A text whose start `p` holds no '\n' has a first line that begins with `p`. */
  lemma FirstLineStartsWith(p: string, q: string)
    requires p + q != []
    requires '\n' !in p
    ensures Lines(p + q) != [] && p <= Lines(p + q)[0]
  {
    var s := p + q;
    var k := LineEnd(s);
    assert s[..k][..|p|] == p;
  }
}
