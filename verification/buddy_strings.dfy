/** Whether one swap of two letters turns `s` into `goal` (string/buddy_strings.rs). */
module BuddyStrings {

  /** The strings enter as their UTF-8 bytes, as `String::bytes` yields them. */
  type Byte = b: int | 0 <= b < 256

  function Swap(s: seq<Byte>, i: int, j: int): (t: seq<Byte>)
    requires 0 <= i < |s| && 0 <= j < |s|
    ensures |t| == |s| && t[i] == s[j] && t[j] == s[i]
    ensures forall k :: 0 <= k < |s| && k != i && k != j ==> t[k] == s[k]
  {
    s[i := s[j]][j := s[i]]
  }

  /** Reference: two distinct positions of `s` can be swapped to give `goal`. */
  ghost predicate Buddies(s: seq<Byte>, goal: seq<Byte>)
  {
    |s| == |goal| && exists i, j :: 0 <= i < j < |s| && Swap(s, i, j) == goal
  }

  /** With no differing position, a swap works exactly when some letter repeats. */
  lemma EqualBuddies(s: seq<Byte>)
    ensures Buddies(s, s) <==> exists p, q :: 0 <= p < q < |s| && s[p] == s[q]
  {
    if exists p, q :: 0 <= p < q < |s| && s[p] == s[q] {
      var p, q :| 0 <= p < q < |s| && s[p] == s[q];
      assert Swap(s, p, q) == s;
    }
    forall i, j | 0 <= i < j < |s| && Swap(s, i, j) == s
      ensures s[i] == s[j]
    {
      assert Swap(s, i, j)[i] == s[j];
    }
  }

  /** With exactly one differing position no swap works. */
  lemma OneDifference(s: seq<Byte>, goal: seq<Byte>, d: int)
    requires |s| == |goal| && 0 <= d < |s| && s[d] != goal[d]
    requires forall k :: 0 <= k < |s| && k != d ==> s[k] == goal[k]
    ensures !Buddies(s, goal)
  {
    forall i, j | 0 <= i < j < |s|
      ensures Swap(s, i, j) != goal
    {
      var t := Swap(s, i, j);
      if i != d && j != d {
        assert t[d] != goal[d];
      } else if s[i] == s[j] {
        assert t[d] != goal[d];
      } else if i == d {
        assert t[j] != goal[j];
      } else {
        assert t[i] != goal[i];
      }
    }
  }

  /** With three or more differing positions no swap works. */
  lemma ThreeDifferences(s: seq<Byte>, goal: seq<Byte>, a: int, b: int, c: int)
    requires |s| == |goal| && 0 <= a < b < c < |s|
    requires s[a] != goal[a] && s[b] != goal[b] && s[c] != goal[c]
    ensures !Buddies(s, goal)
  {
    forall i, j | 0 <= i < j < |s|
      ensures Swap(s, i, j) != goal
    {
      var t := Swap(s, i, j);
      if a != i && a != j {
        assert t[a] != goal[a];
      } else if b != i && b != j {
        assert t[b] != goal[b];
      } else {
        assert t[c] != goal[c];
      }
    }
  }

  /** With exactly two differing positions `f < g`, only the swap of `f` and `g` can work. */
  lemma TwoDifferences(s: seq<Byte>, goal: seq<Byte>, f: int, g: int)
    requires |s| == |goal| && 0 <= f < g < |s| && s[f] != goal[f] && s[g] != goal[g]
    requires forall k :: 0 <= k < |s| && k != f && k != g ==> s[k] == goal[k]
    ensures Buddies(s, goal) <==> s[f] == goal[g] && goal[f] == s[g]
  {
    if s[f] == goal[g] && goal[f] == s[g] {
      assert Swap(s, f, g) == goal;
    }
    forall i, j | 0 <= i < j < |s| && Swap(s, i, j) == goal
      ensures s[f] == goal[g] && goal[f] == s[g]
    {
      var t := Swap(s, i, j);
      assert t[f] == goal[f] && t[g] == goal[g];
    }
  }

  /** `buddy_strings`: collects the positions where the strings differ and whether `s`
      repeats a letter, then decides from at most two differing positions. */
  method BuddyStrings(s: seq<Byte>, goal: seq<Byte>) returns (r: bool)
    ensures r <==> Buddies(s, goal)
  {
    if |s| != |goal| {
      return false;
    }
    var found: set<Byte> := {};
    var dupe := false;
    var different: seq<int> := [];
    ghost var dp, dq := 0, 0;
    var i := 0;
    while i < |s|
      invariant 0 <= i <= |s|
      invariant !dupe ==> found == set k | 0 <= k < i :: s[k]
      invariant !dupe ==> forall p, q :: 0 <= p < q < i ==> s[p] != s[q]
      invariant dupe ==> 0 <= dp < dq < i && s[dp] == s[dq]
      invariant forall t :: 0 <= t < |different| ==> 0 <= different[t] < i && s[different[t]] != goal[different[t]]
      invariant forall t, u :: 0 <= t < u < |different| ==> different[t] < different[u]
      invariant forall k :: 0 <= k < i && s[k] != goal[k] ==> k in different
    {
      if !dupe {
        if s[i] in found {
          dupe := true;
          dp :| 0 <= dp < i && s[dp] == s[i];
          dq := i;
        } else {
          found := found + {s[i]};
        }
      }
      if s[i] != goal[i] {
        different := different + [i];
      }
      i := i + 1;
    }
    if |different| == 2 {
      TwoDifferences(s, goal, different[0], different[1]);
      r := s[different[0]] == goal[different[1]] && goal[different[0]] == s[different[1]];
    } else {
      if |different| == 0 {
        assert s == goal;
        EqualBuddies(s);
      } else if |different| == 1 {
        OneDifference(s, goal, different[0]);
      } else {
        ThreeDifferences(s, goal, different[0], different[1], different[2]);
      }
      r := |different| == 0 && dupe;
    }
  }

  method BuddyStringsExamples()
  {
    var r1 := BuddyStrings([97, 98], [98, 97]);
    assert Swap([97, 98], 0, 1) == [98, 97];
    assert r1;
    var r2 := BuddyStrings([97, 98], [97, 98]);
    EqualBuddies([97, 98]);
    assert !r2;
    var r3 := BuddyStrings([97, 97], [97, 97]);
    EqualBuddies([97, 97]);
    assert [97, 97][0] == [97, 97][1];
    assert r3;
  }
}
