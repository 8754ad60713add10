/** The escape table `Model.conv` of latex.py and the alternation that the escaper
    compiles from it: every key, ordered longest first by a stable sort. */
module EscapeTable {

  /** `Model.conv`: each LaTeX control character and the text that stands for it. */
  const Conv: map<string, string> := map[
    "\n" := "\\\\ ",
    "&"  := "\\&",
    "%"  := "\\%",
    "$"  := "\\$",
    "#"  := "\\#",
    "_"  := "\\_",
    "{"  := "\\{",
    "}"  := "\\}",
    "~"  := "\\textasciitilde{}",
    "^"  := "\\^{}",
    "\\" := "\\textbackslash{}",
    "<"  := "\\textless{}",
    ">"  := "\\textgreater{}"
  ]

  /** `Model.conv.keys()`: the keys in the order the dictionary literal inserts them. */
  const ConvKeys: seq<string> := ["\n", "&", "%", "$", "#", "_", "{", "}", "~", "^", "\\", "<", ">"]

  /** The key order lists exactly the table's keys, and every key is one character. */
  lemma KeysShape()
    ensures AlternatesKeys(ConvKeys)
    ensures forall k :: k in ConvKeys ==> |k| == 1
  {
  }

  /** Every replacement starts with a backslash and is at least two characters long. */
  lemma ReplacementsShape()
    ensures forall k :: k in Conv ==> |Conv[k]| >= 2 && Conv[k][0] == '\\'
  {
  }

  /** A character is special when it is a key of the table. */
  predicate IsSpecial(c: char)
  {
    [c] in Conv
  }

  predicate LongestFirst(xs: seq<string>)
  {
    forall i, j :: 0 <= i < j < |xs| ==> |xs[i]| >= |xs[j]|
  }

  lemma LongestFirstCons(h: string, t: seq<string>)
    requires LongestFirst(t)
    requires t != [] ==> |h| >= |t[0]|
    ensures LongestFirst([h] + t)
  {
    var r := [h] + t;
    forall i, j | 0 <= i < j < |r|
      ensures |r[i]| >= |r[j]|
    {
      if i == 0 {
        assert |t[0]| >= |t[j - 1]|;
      }
    }
  }

  /** Inserts `x` in front of the first element that is not longer than it, so that `x`
      stays ahead of the elements of equal length that followed it. */
  function InsertLongestFirst(x: string, ys: seq<string>): (r: seq<string>)
  {
    if ys == [] || |ys[0]| <= |x| then [x] + ys
    else [ys[0]] + InsertLongestFirst(x, ys[1..])
  }

  /** `sorted(keys, key=lambda item: -len(item))`: an insertion sort that orders longest
      first and returns a permutation of its input. Each element is inserted ahead of the
      equal-length elements that followed it, as Python's stable sort keeps them;
      `SortKeepsEqualLengthOrder` proves the case the table needs. */
  function SortLongestFirst(xs: seq<string>): (r: seq<string>)
    ensures LongestFirst(r)
    ensures multiset(r) == multiset(xs)
  {
    if xs == [] then []
    else
      InsertLongestFirstSorted(xs[0], SortLongestFirst(xs[1..]));
      InsertLongestFirstPermutes(xs[0], SortLongestFirst(xs[1..]));
      assert multiset(xs) == multiset{xs[0]} + multiset(xs[1..]) by {
        assert xs == [xs[0]] + xs[1..];
      }
      InsertLongestFirst(xs[0], SortLongestFirst(xs[1..]))
  }

  lemma {:induction false} InsertLongestFirstPermutes(x: string, ys: seq<string>)
    ensures multiset(InsertLongestFirst(x, ys)) == multiset(ys) + multiset{x}
  {
    if !(ys == [] || |ys[0]| <= |x|) {
      assert ys == [ys[0]] + ys[1..];
      InsertLongestFirstPermutes(x, ys[1..]);
    }
  }

  lemma {:induction false} InsertLongestFirstSorted(x: string, ys: seq<string>)
    requires LongestFirst(ys)
    ensures LongestFirst(InsertLongestFirst(x, ys))
    ensures InsertLongestFirst(x, ys)[0] == x || (ys != [] && InsertLongestFirst(x, ys)[0] == ys[0])
  {
    if ys == [] || |ys[0]| <= |x| {
      LongestFirstCons(x, ys);
    } else {
      var tail := ys[1..];
      assert LongestFirst(tail) by {
        forall i, j | 0 <= i < j < |tail| ensures |tail[i]| >= |tail[j]| {
          assert tail[i] == ys[i + 1] && tail[j] == ys[j + 1];
        }
      }
      InsertLongestFirstSorted(x, tail);
      var rest := InsertLongestFirst(x, tail);
      assert rest[0] == x || rest[0] == ys[1];
      LongestFirstCons(ys[0], rest);
    }
  }

  /** Stability in the case the table meets: when every element has the same length the
      sort changes nothing. */
  lemma {:induction false} SortKeepsEqualLengthOrder(xs: seq<string>, n: nat)
    requires forall i :: 0 <= i < |xs| ==> |xs[i]| == n
    ensures SortLongestFirst(xs) == xs
  {
    if xs != [] {
      SortKeepsEqualLengthOrder(xs[1..], n);
      assert xs == [xs[0]] + xs[1..];
    }
  }

  /** The alternatives of the compiled regular expression, in the order they are tried. */
  function Pattern(): (r: seq<string>)
  {
    SortLongestFirst(ConvKeys)
  }

  /** Because every key is one character long, the longest-first sort leaves the keys in
      the dictionary's order: the alternation lists exactly the table's keys, once each. */
  lemma PatternIsConvKeys()
    ensures Pattern() == ConvKeys
  {
    KeysShape();
    SortKeepsEqualLengthOrder(ConvKeys, 1);
  }

  /** An alternation that lists exactly the table's keys, in whatever order. */
  ghost predicate AlternatesKeys(regex: seq<string>)
  {
    forall a :: a in regex <==> a in Conv
  }
}
