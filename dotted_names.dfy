/**
 * Dot-separated names as `explode(".", …)` and `implode(".", …)` see them, and how
 * the joins of leading segments relate to the dots of the name.
 */
module DottedNames {

  /** The index of the first '.' of `s` at or after `from`, or |s| when there is none. */
  function NextDot(s: string, from: nat): (i: nat)
    requires from <= |s|
    ensures from <= i <= |s|
    ensures i < |s| ==> s[i] == '.'
    decreases |s| - from
  {
    if from == |s| || s[from] == '.' then from else NextDot(s, from + 1)
  }

  /** No dot lies between `from` and the next dot. */
  lemma {:induction false} NoDotBeforeNext(s: string, from: nat, j: nat)
    requires from <= |s|
    ensures from <= j < NextDot(s, from) ==> s[j] != '.'
    decreases |s| - from
  {
    if from < j < NextDot(s, from) {
      NoDotBeforeNext(s, from + 1, j);
    }
  }

  /** The segments of `s[from..]` between dots, never empty. */
  function Segments(s: string, from: nat): (parts: seq<string>)
    requires from <= |s|
    ensures |parts| >= 1
    decreases |s| - from
  {
    var d := NextDot(s, from);
    if d == |s| then [s[from..]] else [s[from..d]] + Segments(s, d + 1)
  }

  /** `explode(".", s)`. */
  function Explode(s: string): (parts: seq<string>)
    ensures |parts| >= 1
  {
    Segments(s, 0)
  }

  /** `implode(".", parts)`. */
  function Implode(parts: seq<string>): string
  {
    if |parts| == 0 then "" else if |parts| == 1 then parts[0] else parts[0] + "." + Implode(parts[1..])
  }

  /** No segment holds a dot. */
  lemma {:induction false} SegmentsHaveNoDot(s: string, from: nat)
    requires from <= |s|
    ensures forall i :: 0 <= i < |Segments(s, from)| ==> '.' !in Segments(s, from)[i]
    decreases |s| - from
  {
    var d := NextDot(s, from);
    assert '.' !in s[from..d] by {
      forall m | 0 <= m < d - from ensures s[from..d][m] != '.' {
        NoDotBeforeNext(s, from, from + m);
      }
    }
    if d < |s| {
      SegmentsHaveNoDot(s, d + 1);
      var rest := Segments(s, d + 1);
      forall i | 0 <= i < |Segments(s, from)| ensures '.' !in Segments(s, from)[i] {
        if i > 0 {
          assert Segments(s, from)[i] == rest[i - 1];
        }
      }
    } else {
      assert s[from..] == s[from..d];
    }
  }

  lemma PartsHaveNoDot(s: string)
    ensures forall i :: 0 <= i < |Explode(s)| ==> '.' !in Explode(s)[i]
  {
    SegmentsHaveNoDot(s, 0);
  }

  lemma ImplodeConsAll(h: string, rest: seq<string>)
    requires |rest| >= 1
    ensures Implode([h] + rest) == h + "." + Implode(rest)
  {
    assert ([h] + rest)[1..] == rest;
  }

  lemma ImplodeCons(h: string, rest: seq<string>, k: nat)
    requires 2 <= k <= |rest| + 1
    ensures Implode(([h] + rest)[..k]) == h + "." + Implode(rest[..k - 1])
  {
    var xs := ([h] + rest)[..k];
    assert xs == [h] + rest[..k - 1];
    assert xs[1..] == rest[..k - 1];
  }

  /** The text from `from` to `j` is the text up to a dot `d`, the dot, and the rest. */
  lemma JoinAtDot(s: string, from: nat, d: nat, j: nat)
    requires from <= d < j <= |s| && s[d] == '.'
    ensures s[from..d] + "." + s[d + 1..j] == s[from..j]
  {
  }

  /** Joining the segments of `s[from..]` gives that text back. */
  lemma {:induction false} ImplodeSegments(s: string, from: nat)
    requires from <= |s|
    ensures Implode(Segments(s, from)) == s[from..]
    decreases |s| - from
  {
    var d := NextDot(s, from);
    if d < |s| {
      var rest := Segments(s, d + 1);
      assert Implode(Segments(s, from)) == s[from..d] + "." + Implode(rest) by {
        ImplodeConsAll(s[from..d], rest);
      }
      ImplodeSegments(s, d + 1);
      JoinAtDot(s, from, d, |s|);
      assert s[d + 1..|s|] == s[d + 1..] && s[from..|s|] == s[from..];
    } else {
      assert Segments(s, from) == [s[from..]];
    }
  }

  /** Joining the segments gives the name back. */
  lemma ImplodeExplode(s: string)
    ensures Implode(Explode(s)) == s
  {
    ImplodeSegments(s, 0);
  }

  /** The join of the first k segments, short of all of them, is the text before dot `j`. */
  lemma {:induction false} LeadingJoinIsDotPrefix(s: string, from: nat, k: nat) returns (j: nat)
    requires from <= |s| && 1 <= k < |Segments(s, from)|
    ensures from <= j < |s| && s[j] == '.' && Implode(Segments(s, from)[..k]) == s[from..j]
    decreases |s| - from
  {
    var d := NextDot(s, from);
    assert d < |s|;
    var rest := Segments(s, d + 1);
    if k == 1 {
      assert Segments(s, from)[..1] == [s[from..d]];
      j := d;
    } else {
      var j' := LeadingJoinIsDotPrefix(s, d + 1, k - 1);
      assert Implode(Segments(s, from)[..k]) == s[from..d] + "." + Implode(rest[..k - 1]) by {
        ImplodeCons(s[from..d], rest, k);
      }
      JoinAtDot(s, from, d, j');
      j := j';
    }
  }

  /** Conversely, the text before any dot is the join of the first k segments. */
  lemma {:induction false} DotPrefixIsLeadingJoin(s: string, from: nat, i: nat) returns (k: nat)
    requires from <= i < |s| && s[i] == '.'
    ensures 1 <= k < |Segments(s, from)| && Implode(Segments(s, from)[..k]) == s[from..i]
    decreases |s| - from
  {
    var d := NextDot(s, from);
    NoDotBeforeNext(s, from, i);
    var rest := Segments(s, d + 1);
    if i == d {
      assert Segments(s, from)[..1] == [s[from..d]];
      k := 1;
    } else {
      var k' := DotPrefixIsLeadingJoin(s, d + 1, i);
      assert Implode(Segments(s, from)[..k' + 1]) == s[from..d] + "." + Implode(rest[..k']) by {
        ImplodeCons(s[from..d], rest, k' + 1);
      }
      JoinAtDot(s, from, d, i);
      k := k' + 1;
    }
  }

  /**
   * The joins of one, two, … leading segments of `s` that differ from `s` itself are
   * exactly the parts of `s` in front of a dot.
   */
  lemma LeadingJoins(s: string, key: string)
    ensures (exists k :: 1 <= k <= |Explode(s)| && key == Implode(Explode(s)[..k]) && key != s)
            <==> (exists i :: 0 <= i < |s| && s[i] == '.' && key == s[..i])
  {
    var parts := Explode(s);
    if k :| 1 <= k <= |parts| && key == Implode(parts[..k]) && key != s {
      if k == |parts| {
        assert parts[..k] == parts;
        ImplodeExplode(s);
      } else {
        var j := LeadingJoinIsDotPrefix(s, 0, k);
        assert s[0..j] == s[..j];
      }
    }
    if i :| 0 <= i < |s| && s[i] == '.' && key == s[..i] {
      var k := DotPrefixIsLeadingJoin(s, 0, i);
      assert s[0..i] == s[..i];
    }
  }
}
