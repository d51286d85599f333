/** Paths and queries in CoAP: a string is sent as several options, split at its
    separator, and the receiver merges the options again. */
module CoapText {
  import opened Common
  import opened CoapOptions

  /** The part of a string from `start` on as `coap_serialize_array_option` splits it, when its loop
      is at `j`. The byte after a separator is never taken for a separator, and after a
      separator at the very end the loop looks at the second byte behind the string. */
  function Split(s: seq<Byte>, after: seq<Byte>, sep: Byte, start: nat, j: nat): seq<seq<Byte>>
    requires |after| == 2 && start <= |s| && start <= j
    decreases |s| + 2 - j
  {
    if j > |s| + 1 then []
    else if j == |s| + 1 then (if after[1] == sep then [s[start..] + [after[0]]] else [])
    else if j == |s| then [s[start..]]
    else if s[j] == sep then [s[start..j]] + Split(s, after, sep, j + 1, j + 2)
    else Split(s, after, sep, start, j + 1)
  }

  function Segments(s: seq<Byte>, after: seq<Byte>, sep: Byte): seq<seq<Byte>>
    requires |after| == 2
  {
    Split(s, after, sep, 0, 0)
  }

  /** `coap_merge_multi_option` on values. */
  function Merge(dst: seq<Byte>, value: seq<Byte>, sep: Byte): seq<Byte> {
    if |dst| > 0 then dst + [sep] + value else value
  }

  function MergeAll(dst: seq<Byte>, values: seq<seq<Byte>>, sep: Byte): seq<Byte>
    decreases |values|
  {
    if values == [] then dst else MergeAll(Merge(dst, values[0], sep), values[1..], sep)
  }

  // ----- merging is joining -----

  function Join(values: seq<seq<Byte>>, sep: Byte): seq<Byte> {
    if values == [] then [] else if |values| == 1 then values[0] else values[0] + [sep] + Join(values[1..], sep)
  }

  function DropEmpty(values: seq<seq<Byte>>): seq<seq<Byte>> {
    if values == [] || values[0] != [] then values else DropEmpty(values[1..])
  }

  /** Merging joins the segments with the separator, except that empty segments in front
      get lost. */
  lemma {:induction false} MergeIsJoin(values: seq<seq<Byte>>, sep: Byte)
    ensures MergeAll([], values, sep) == Join(DropEmpty(values), sep)
  {
    if values != [] {
      if values[0] == [] {
        MergeIsJoin(values[1..], sep);
      } else {
        MergeOnto(values[0], values[1..], sep);
      }
    }
  }

  lemma {:induction false} MergeOnto(dst: seq<Byte>, values: seq<seq<Byte>>, sep: Byte)
    requires dst != []
    ensures MergeAll(dst, values, sep) == Join([dst] + values, sep)
    decreases |values|
  {
    if values != [] {
      var next := dst + [sep] + values[0];
      MergeOnto(next, values[1..], sep);
      assert ([dst] + values)[1..] == values && ([next] + values[1..])[1..] == values[1..];
      JoinHead(dst, values[0], values[1..], sep);
    }
  }

  lemma JoinHead(a: seq<Byte>, b: seq<Byte>, rest: seq<seq<Byte>>, sep: Byte)
    ensures Join([a + [sep] + b] + rest, sep) == a + [sep] + Join([b] + rest, sep)
  {
    assert ([a + [sep] + b] + rest)[1..] == rest && ([b] + rest)[1..] == rest;
    assert a + [sep] + b + [sep] + Join(rest, sep) == a + [sep] + (b + [sep] + Join(rest, sep));
  }

  // ----- which strings survive -----

  /** The number of separators at the end. */
  function Tail(s: seq<Byte>, sep: Byte): (n: nat)
    ensures n <= |s| && (n < |s| ==> s[|s| - n - 1] != sep)
    ensures forall i :: |s| - n <= i < |s| ==> s[i] == sep
  {
    if s == [] || s[|s| - 1] != sep then 0 else Tail(s[..|s| - 1], sep) + 1
  }

  /** A string that the split and the merge keep: no separator in front, an even number
      of them at the end. */
  predicate Kept(s: seq<Byte>, sep: Byte) {
    (s != [] ==> s[0] != sep) && Tail(s, sep) % 2 == 0
  }

  /** The loop at `j` gets to the end of the string and not beyond. */
  predicate EndsWell(s: seq<Byte>, sep: Byte, j: nat) {
    j <= |s| && (if j >= |s| - Tail(s, sep) then (|s| - j) % 2 == 0 else Tail(s, sep) % 2 == 0)
  }

  function Glue(dst: seq<Byte>, sep: Byte): seq<Byte> {
    if dst == [] then [] else dst + [sep]
  }

  /** What is added to what has been merged so far: the rest of the string, or a little
      more or less of it. */
  function Outcome(s: seq<Byte>, after: seq<Byte>, sep: Byte, start: nat, j: nat, dst: seq<Byte>): seq<Byte>
    requires |after| == 2 && start <= |s|
  {
    var whole := Glue(dst, sep) + s[start..];
    if EndsWell(s, sep, j) then whole
    else if after[1] == sep then whole + [after[0]]
    else if whole == [] then whole else whole[..|whole| - 1]
  }

  lemma EndsWellStep(s: seq<Byte>, sep: Byte, j: nat)
    requires j < |s|
    ensures EndsWell(s, sep, j) == EndsWell(s, sep, if s[j] == sep then j + 2 else j + 1)
  {
    var n := |s| - Tail(s, sep);
    if j == n - 1 {
      assert s[j] != sep;
    }
  }

  /** The string that is merged does not depend on where it has been split. */
  lemma WholeStep(s: seq<Byte>, sep: Byte, start: nat, j: nat, dst: seq<Byte>)
    requires start < j < |s| && s[j] == sep
    ensures var next := Merge(dst, s[start..j], sep);
            next != [] && Glue(next, sep) + s[j + 1..] == Glue(dst, sep) + s[start..]
  {
    assert s[start..] == s[start..j] + [sep] + s[j + 1..];
    Assoc(Glue(dst, sep) + s[start..j], [sep], s[j + 1..]);
    Assoc(Glue(dst, sep), s[start..j] + [sep], s[j + 1..]);
    Assoc(Glue(dst, sep), s[start..j], [sep]);
  }

  lemma OutcomeStep(s: seq<Byte>, after: seq<Byte>, sep: Byte, start: nat, j: nat, dst: seq<Byte>)
    requires |after| == 2 && start < j < |s|
    ensures Outcome(s, after, sep, start, j, dst) ==
            if s[j] == sep then Outcome(s, after, sep, j + 1, j + 2, Merge(dst, s[start..j], sep))
            else Outcome(s, after, sep, start, j + 1, dst)
  {
    EndsWellStep(s, sep, j);
    if s[j] == sep {
      WholeStep(s, sep, start, j, dst);
    }
  }

  lemma MergeFirst(dst: seq<Byte>, value: seq<Byte>, rest: seq<seq<Byte>>, sep: Byte)
    ensures MergeAll(dst, [value] + rest, sep) == MergeAll(Merge(dst, value, sep), rest, sep)
  {
    assert ([value] + rest)[1..] == rest;
  }

  lemma AtEnd(s: seq<Byte>, after: seq<Byte>, sep: Byte, start: nat, j: nat, dst: seq<Byte>)
    requires |after| == 2 && start <= |s| && start < j && (j == |s| || (j == |s| + 1 && start == |s|))
    ensures MergeAll(dst, Split(s, after, sep, start, j), sep) == Outcome(s, after, sep, start, j, dst)
  {
    MergeOne(dst, s[start..] + [after[0]], sep);
    MergeOne(dst, s[start..], sep);
    assert s[|s|..] == [];
    if j == |s| + 1 {
      assert Glue(dst, sep) + s[start..] == Glue(dst, sep);
    }
  }

  lemma {:induction false} SplitMerged(s: seq<Byte>, after: seq<Byte>, sep: Byte, start: nat, j: nat, dst: seq<Byte>)
    requires |after| == 2 && start <= |s| && start < j <= |s| + 1 && (j == |s| + 1 ==> start == |s|)
    ensures MergeAll(dst, Split(s, after, sep, start, j), sep) == Outcome(s, after, sep, start, j, dst)
    decreases |s| + 2 - j
  {
    if j >= |s| {
      AtEnd(s, after, sep, start, j, dst);
    } else {
      OutcomeStep(s, after, sep, start, j, dst);
      if s[j] == sep {
        var rest := Split(s, after, sep, j + 1, j + 2);
        SplitMerged(s, after, sep, j + 1, j + 2, Merge(dst, s[start..j], sep));
        MergeFirst(dst, s[start..j], rest, sep);
      } else {
        SplitMerged(s, after, sep, start, j + 1, dst);
      }
    }
  }

  lemma MergeOne(dst: seq<Byte>, value: seq<Byte>, sep: Byte)
    ensures MergeAll(dst, [value], sep) == Merge(dst, value, sep)
  {
    assert [value][1..] == [];
  }

  /** A string survives the split and the merge if and only if it has no separator in
      front and an even number of them at the end. */
  lemma KeptIff(s: seq<Byte>, after: seq<Byte>, sep: Byte)
    requires |after| == 2 && after[0] != sep
    ensures MergeAll([], Segments(s, after, sep), sep) == s <==> Kept(s, sep)
  {
    if s == [] {
      MergeOne([], [], sep);
    } else if s[0] == sep {
      LostInFront(s, after, sep);
    } else {
      SplitMerged(s, after, sep, 0, 1, []);
      KeptFrom(s, after, sep);
    }
  }

  /** A separator in front gets lost. */
  lemma LostInFront(s: seq<Byte>, after: seq<Byte>, sep: Byte)
    requires |after| == 2 && after[0] != sep && s != [] && s[0] == sep
    ensures MergeAll([], Segments(s, after, sep), sep) != s
  {
    var rest := Split(s, after, sep, 1, 2);
    assert s[0..0] == [] && ([[]] + rest)[1..] == rest;
    SplitMerged(s, after, sep, 1, 2, []);
    assert after[0] != s[|s| - 1] || s[|s| - 1] != sep;
  }

  lemma KeptFrom(s: seq<Byte>, after: seq<Byte>, sep: Byte)
    requires |after| == 2 && after[0] != sep && s != [] && s[0] != sep
    ensures Outcome(s, after, sep, 0, 1, []) == s <==> Kept(s, sep)
  {
    assert s[0..] == s;
  }
}
