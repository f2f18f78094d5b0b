/** The shape both loaders share (main.cpp:25-36, 38-65): the file is read
    line by line, a line whose tag matches is parsed, and what it yields is
    appended in file order; other lines are ignored. A line is kept by
    `keep` and read by `parse`. */
module LineScan {
  import opened Text

  /** Every kept line parses. */
  predicate AllParse<T>(lines: seq<string>, keep: string -> bool, parse: string -> Option<T>) {
    forall i | 0 <= i < |lines| :: keep(lines[i]) ==> parse(lines[i]).Some?
  }

  /** What the kept lines yield, accumulated from the first line to the last. */
  function Collected<T>(lines: seq<string>, keep: string -> bool, parse: string -> Option<T>): seq<T>
    requires AllParse(lines, keep, parse)
  {
    if lines == [] then []
    else
      var t := lines[|lines| - 1];
      Collected(lines[..|lines| - 1], keep, parse) + if keep(t) then [parse(t).value] else []
  }

  /** The kept lines, in order: an independent, front-to-back filter. */
  function Kept(lines: seq<string>, keep: string -> bool): seq<string> {
    if lines == [] then []
    else (if keep(lines[0]) then [lines[0]] else []) + Kept(lines[1..], keep)
  }

  /** Reading one more line adds what it yields, if it is kept. */
  lemma {:induction false} CollectedNext<T>(lines: seq<string>, i: nat, keep: string -> bool, parse: string -> Option<T>)
    requires AllParse(lines, keep, parse) && i < |lines|
    ensures AllParse(lines[..i], keep, parse) && AllParse(lines[..i + 1], keep, parse)
    ensures Collected(lines[..i + 1], keep, parse) == Collected(lines[..i], keep, parse)
      + if keep(lines[i]) then [parse(lines[i]).value] else []
  {
    assert lines[..i + 1][..i] == lines[..i];
  }

  /** Lines are read independently: a concatenation yields what its first
      part yields followed by what its second part yields. */
  lemma {:induction false} CollectedAppend<T>(a: seq<string>, b: seq<string>, keep: string -> bool, parse: string -> Option<T>)
    requires AllParse(a, keep, parse) && AllParse(b, keep, parse)
    ensures AllParse(a + b, keep, parse)
    ensures Collected(a + b, keep, parse) == Collected(a, keep, parse) + Collected(b, keep, parse)
    decreases |b|
  {
    assert AllParse(a + b, keep, parse) by {
      forall i | 0 <= i < |a + b| && keep((a + b)[i])
        ensures parse((a + b)[i]).Some?
      {
        if i >= |a| { assert (a + b)[i] == b[i - |a|]; }
      }
    }
    if b == [] {
      assert a + b == a;
    } else {
      var init := b[..|b| - 1];
      assert (a + b)[..|a + b| - 1] == a + init;
      CollectedAppend(a, init, keep, parse);
    }
  }

  /** The first line alone, and the lines after it, each parse; the first line
      yields its own item when kept. */
  lemma {:induction false} CollectedFirst<T>(lines: seq<string>, keep: string -> bool, parse: string -> Option<T>)
    requires AllParse(lines, keep, parse) && lines != []
    ensures AllParse(lines[..1], keep, parse) && AllParse(lines[1..], keep, parse)
    ensures Collected(lines[..1], keep, parse) == if keep(lines[0]) then [parse(lines[0]).value] else []
  {
    assert lines[..1][..0] == [];
    assert AllParse(lines[1..], keep, parse) by {
      forall i | 0 <= i < |lines| - 1 && keep(lines[1..][i])
        ensures parse(lines[1..][i]).Some?
      {
        assert lines[1..][i] == lines[i + 1];
      }
    }
  }

  /** The k-th item is what the k-th kept line yields, and there are as many
      items as kept lines. */
  lemma {:induction false} CollectedInFileOrder<T>(lines: seq<string>, keep: string -> bool, parse: string -> Option<T>)
    requires AllParse(lines, keep, parse)
    ensures |Collected(lines, keep, parse)| == |Kept(lines, keep)|
    ensures forall k | 0 <= k < |Kept(lines, keep)| ::
      parse(Kept(lines, keep)[k]).Some? && Collected(lines, keep, parse)[k] == parse(Kept(lines, keep)[k]).value
  {
    if lines != [] {
      var first, rest := lines[..1], lines[1..];
      assert lines == first + rest;
      CollectedFirst(lines, keep, parse);
      CollectedAppend(first, rest, keep, parse);
      CollectedInFileOrder(rest, keep, parse);
    }
  }
}
