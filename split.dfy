/**
 * Splitting text on a separator character and dropping the empty pieces,
 * as .NET's String.Split does with StringSplitOptions.RemoveEmptyEntries:
 * "1//2" splits on '/' into ["1", "2"] and "/1/2/" into the same.
 */
module Splitting {

  /** The length of the piece at the start of s: up to the first sep, or all of s. */
  function PieceLength(s: string, sep: char): (k: nat)
    requires |s| > 0 && s[0] != sep
    ensures 0 < k <= |s|
    ensures k < |s| ==> s[k] == sep
    ensures forall i | 0 <= i < k :: s[i] != sep
    decreases |s|
  {
    if |s| == 1 || s[1] == sep then 1 else 1 + PieceLength(s[1..], sep)
  }

  /** The maximal runs of s that hold no sep, in order; empty runs are dropped. */
  function SplitNonEmpty(s: string, sep: char): (parts: seq<string>)
    ensures forall i | 0 <= i < |parts| :: |parts[i]| > 0 && sep !in parts[i]
    decreases |s|
  {
    if s == [] then []
    else if s[0] == sep then SplitNonEmpty(s[1..], sep)
    else
      var k := PieceLength(s, sep);
      [s[..k]] + SplitNonEmpty(s[k..], sep)
  }

  function Concat(parts: seq<string>): (s: string)
  {
    if parts == [] then "" else parts[0] + Concat(parts[1..])
  }

  /** s with every occurrence of c taken out. */
  function Remove(s: string, c: char): (t: string)
  {
    if s == [] then "" else (if s[0] == c then "" else [s[0]]) + Remove(s[1..], c)
  }

  lemma {:induction false} RemoveAppend(a: string, b: string, c: char)
    ensures Remove(a + b, c) == Remove(a, c) + Remove(b, c)
    decreases |a|
  {
    if a != [] {
      assert (a + b)[1..] == a[1..] + b;
      RemoveAppend(a[1..], b, c);
    } else {
      assert a + b == b;
    }
  }

  lemma {:induction false} RemoveAbsent(a: string, c: char)
    requires c !in a
    ensures Remove(a, c) == a
    decreases |a|
  {
    if a != [] {
      RemoveAbsent(a[1..], c);
      assert a == [a[0]] + a[1..];
    }
  }

  /** Splitting loses nothing but the separators: the pieces put together are s without sep. */
  lemma {:induction false} SplitLosesOnlySeparators(s: string, sep: char)
    ensures Concat(SplitNonEmpty(s, sep)) == Remove(s, sep)
    decreases |s|
  {
    if s != [] {
      if s[0] == sep {
        SplitLosesOnlySeparators(s[1..], sep);
      } else {
        var k := PieceLength(s, sep);
        var parts := SplitNonEmpty(s, sep);
        assert parts[0] == s[..k] && parts[1..] == SplitNonEmpty(s[k..], sep);
        SplitLosesOnlySeparators(s[k..], sep);
        assert s == s[..k] + s[k..];
        RemoveAppend(s[..k], s[k..], sep);
        RemoveAbsent(s[..k], sep);
      }
    }
  }

  /** A nonempty run without the separator is a single piece. */
  lemma SplitOnePiece(a: string, sep: char)
    requires |a| > 0 && sep !in a
    ensures SplitNonEmpty(a, sep) == [a]
  {
    var k := PieceLength(a, sep);
    assert forall i | 0 <= i < |a| :: a[i] != sep;
    assert a[..k] == a && a[k..] == [];
  }

  /** A nonempty run without the separator, followed by a separator, is the first piece. */
  lemma SplitFirstPiece(a: string, t: string, sep: char)
    requires |a| > 0 && sep !in a && |t| > 0 && t[0] == sep
    ensures SplitNonEmpty(a + t, sep) == [a] + SplitNonEmpty(t, sep)
  {
    var s := a + t;
    assert s[0] == a[0];
    var k := PieceLength(s, sep);
    assert s[|a|] == sep;
    assert forall i | 0 <= i < |a| :: s[i] == a[i] && a[i] != sep;
    assert k == |a|;
    assert s[..k] == a && s[k..] == t;
  }

  /** Two nonempty runs joined by one separator split back into exactly those two runs. */
  lemma SplitTwoPieces(a: string, b: string, sep: char)
    requires |a| > 0 && |b| > 0 && sep !in a && sep !in b
    ensures SplitNonEmpty(a + [sep] + b, sep) == [a, b]
  {
    var t := [sep] + b;
    assert a + [sep] + b == a + t;
    SplitFirstPiece(a, t, sep);
    assert t[1..] == b;
    SplitOnePiece(b, sep);
  }
}
