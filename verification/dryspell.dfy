/** The longest run of dry days: the program's split-based computation on a
    0/1 string, and a recursive run-length definition it agrees with. */
module DrySpell {

  /** Python's `s.split(sep)` for a one-character separator: the maximal
      pieces between separators, always at least one (possibly empty). */
  function SplitOn(s: string, sep: char): (r: seq<string>)
    ensures |r| >= 1
    ensures forall i :: 0 <= i < |r| ==> sep !in r[i]
  {
    if |s| == 0 then [[]]
    else
      var rest := SplitOn(s[..|s| - 1], sep);
      var c := s[|s| - 1];
      if c == sep then rest + [[]]
      else rest[..|rest| - 1] + [rest[|rest| - 1] + [c]]
  }

  /** Python's `sep.join(ps)`. */
  function Join(ps: seq<string>, sep: char): string
    requires |ps| >= 1
  {
    if |ps| == 1 then ps[0]
    else Join(ps[..|ps| - 1], sep) + [sep] + ps[|ps| - 1]
  }

  /** Joining a list with one more piece at the end. */
  lemma JoinSnoc(ps: seq<string>, x: string, sep: char)
    requires |ps| >= 1
    ensures Join(ps + [x], sep) == Join(ps, sep) + [sep] + x
  {
    assert (ps + [x])[..|ps|] == ps;
  }

  /** Lengthening the last piece lengthens the joined string at its end. */
  lemma JoinGrowLast(ps: seq<string>, c: char, sep: char)
    requires |ps| >= 1
    ensures Join(ps[..|ps| - 1] + [ps[|ps| - 1] + [c]], sep) == Join(ps, sep) + [c]
  {
    var q, x := ps[..|ps| - 1], ps[|ps| - 1];
    if |ps| > 1 {
      assert ps == q + [x];
      JoinSnoc(q, x, sep);
      JoinSnoc(q, x + [c], sep);
    }
  }

  /** One more character at the end of the string appears at the end of
      the joined pieces. */
  lemma JoinSplitStep(s: string, sep: char)
    requires |s| > 0
    ensures Join(SplitOn(s, sep), sep) == Join(SplitOn(s[..|s| - 1], sep), sep) + [s[|s| - 1]]
  {
    var rest := SplitOn(s[..|s| - 1], sep);
    if s[|s| - 1] == sep {
      JoinSnoc(rest, [], sep);
      assert Join(rest, sep) + [sep] + [] == Join(rest, sep) + [sep];
    } else {
      JoinGrowLast(rest, s[|s| - 1], sep);
    }
  }

  /** Splitting loses nothing: joining the pieces with the separator gives
      the string back. */
  lemma {:induction false} JoinSplitOn(s: string, sep: char)
    ensures Join(SplitOn(s, sep), sep) == s
  {
    if |s| > 0 {
      var e, c := s[..|s| - 1], s[|s| - 1];
      JoinSplitOn(e, sep);
      JoinSplitStep(s, sep);
      assert Join(SplitOn(s, sep), sep) == e + [c];
      assert e + [c] == s;
    }
  }

  /** `max(map(len, ps))`. */
  function MaxLen(ps: seq<string>): (m: nat)
    requires |ps| >= 1
    ensures forall i :: 0 <= i < |ps| ==> |ps[i]| <= m
    ensures exists i :: 0 <= i < |ps| && |ps[i]| == m
  {
    if |ps| == 1 then |ps[0]|
    else
      var m := MaxLen(ps[..|ps| - 1]);
      assert forall i :: 0 <= i < |ps| - 1 ==> ps[..|ps| - 1][i] == ps[i];
      if |ps[|ps| - 1]| > m then |ps[|ps| - 1]| else m
  }

  /** The program's `maxConsecutive`: the longest piece between '0's. It is
      the longest run of consecutive characters other than '0'. */
  function MaxConsecutive(s: string): (r: nat)
    ensures r == LongestRun(NonZero(s))
  {
    SplitTracksRuns(s);
    MaxLen(SplitOn(s, '0'))
  }

  /** Which positions of a string hold something other than '0'. */
  function NonZero(s: string): (flags: seq<bool>)
    ensures |flags| == |s|
    ensures forall i :: 0 <= i < |s| ==> flags[i] == (s[i] != '0')
  {
    seq(|s|, i requires 0 <= i < |s| => s[i] != '0')
  }

  /** The 0/1 string the program builds from the dry flags. */
  function Encode(flags: seq<bool>): (s: string)
    ensures |s| == |flags|
    ensures forall i :: 0 <= i < |flags| ==> s[i] == (if flags[i] then '1' else '0')
  {
    if |flags| == 0 then []
    else Encode(flags[..|flags| - 1]) + [if flags[|flags| - 1] then '1' else '0']
  }

  /** Length of the run of true flags that ends at the last position. */
  function TrailingRun(flags: seq<bool>): nat
  {
    if |flags| == 0 then 0
    else if flags[|flags| - 1] then TrailingRun(flags[..|flags| - 1]) + 1
    else 0
  }

  /** Length of the longest run of consecutive true flags. */
  function LongestRun(flags: seq<bool>): nat
  {
    if |flags| == 0 then 0
    else
      var m := LongestRun(flags[..|flags| - 1]);
      var t := TrailingRun(flags);
      if t > m then t else m
  }

  /** Number of true flags. */
  function CountTrue(flags: seq<bool>): nat
  {
    if |flags| == 0 then 0
    else CountTrue(flags[..|flags| - 1]) + (if flags[|flags| - 1] then 1 else 0)
  }

  /** `max` over a list with one more piece at the end. */
  lemma MaxLenSnoc(q: seq<string>, x: string)
    requires |q| >= 1
    ensures MaxLen(q + [x]) == if |x| > MaxLen(q) then |x| else MaxLen(q)
  {
    assert (q + [x])[..|q|] == q;
  }

  /** How one more character at the end changes the split: a '0' opens a
      new, empty last piece, anything else lengthens the last piece by one;
      the longest piece is the longer of the old longest and the new last. */
  lemma SplitStep(s: string)
    requires |s| > 0
    ensures var rest, r := SplitOn(s[..|s| - 1], '0'), SplitOn(s, '0');
      && |r[|r| - 1]| == (if s[|s| - 1] == '0' then 0 else |rest[|rest| - 1]| + 1)
      && MaxLen(r) == if |r[|r| - 1]| > MaxLen(rest) then |r[|r| - 1]| else MaxLen(rest)
  {
    var rest := SplitOn(s[..|s| - 1], '0');
    var c := s[|s| - 1];
    if c == '0' {
      MaxLenSnoc(rest, []);
    } else {
      var q, x := rest[..|rest| - 1], rest[|rest| - 1];
      assert SplitOn(s, '0') == q + [x + [c]];
      if |rest| > 1 {
        assert rest == q + [x];
        MaxLenSnoc(q, x);
        MaxLenSnoc(q, x + [c]);
      }
    }
  }

  /** How one more character at the end changes the trailing and longest
      runs of non-'0' characters. */
  lemma RunsStep(s: string)
    requires |s| > 0
    ensures var f, p := NonZero(s), NonZero(s[..|s| - 1]);
      && TrailingRun(f) == (if s[|s| - 1] != '0' then TrailingRun(p) + 1 else 0)
      && LongestRun(f) == if TrailingRun(f) > LongestRun(p) then TrailingRun(f) else LongestRun(p)
  {
    var f := NonZero(s);
    assert f[..|f| - 1] == NonZero(s[..|s| - 1]);
  }

  /** The last piece of the split is the trailing run of non-'0' characters,
      and the longest piece is the longest such run. */
  lemma {:induction false} SplitTracksRuns(s: string)
    ensures var r := SplitOn(s, '0');
      |r[|r| - 1]| == TrailingRun(NonZero(s)) && MaxLen(r) == LongestRun(NonZero(s))
  {
    if |s| > 0 {
      SplitTracksRuns(s[..|s| - 1]);
      SplitStep(s);
      RunsStep(s);
    }
  }

  /** On the program's 0/1 encoding, `maxConsecutive` is the longest run of
      dry days. */
  lemma MaxConsecutiveIsLongestRun(flags: seq<bool>)
    ensures MaxConsecutive(Encode(flags)) == LongestRun(flags)
  {
    assert NonZero(Encode(flags)) == flags;
  }

  lemma {:induction false} TrailingRunAtMostCount(flags: seq<bool>)
    ensures TrailingRun(flags) <= CountTrue(flags)
  {
    if |flags| > 0 {
      TrailingRunAtMostCount(flags[..|flags| - 1]);
    }
  }

  /** The longest run is at most the number of dry days, which is at most
      the number of days. */
  lemma {:induction false} LongestRunBounds(flags: seq<bool>)
    ensures LongestRun(flags) <= CountTrue(flags) <= |flags|
  {
    if |flags| > 0 {
      LongestRunBounds(flags[..|flags| - 1]);
      TrailingRunAtMostCount(flags);
    }
  }

  /** A run of true flags ending at the end is no longer than the trailing run. */
  lemma {:induction false} RunAtEndBounded(flags: seq<bool>, i: nat)
    requires i <= |flags|
    requires forall k :: i <= k < |flags| ==> flags[k]
    ensures |flags| - i <= TrailingRun(flags)
  {
    if i < |flags| {
      RunAtEndBounded(flags[..|flags| - 1], i);
    }
  }

  /** Every block of consecutive true flags is at most the longest run. */
  lemma {:induction false} RunBounded(flags: seq<bool>, i: nat, j: nat)
    requires i <= j <= |flags|
    requires forall k :: i <= k < j ==> flags[k]
    ensures j - i <= LongestRun(flags)
  {
    if |flags| > 0 {
      var p := flags[..|flags| - 1];
      if j == |flags| {
        RunAtEndBounded(flags, i);
      } else {
        RunBounded(p, i, j);
      }
    }
  }

  /** The trailing run is itself a block of true flags. */
  lemma {:induction false} TrailingRunIsRun(flags: seq<bool>)
    ensures TrailingRun(flags) <= |flags|
    ensures forall k :: |flags| - TrailingRun(flags) <= k < |flags| ==> flags[k]
  {
    if |flags| > 0 && flags[|flags| - 1] {
      TrailingRunIsRun(flags[..|flags| - 1]);
    }
  }

  /** Some block of consecutive true flags has exactly the longest run's
      length; together with RunBounded, the longest run is the maximum over
      all blocks. */
  lemma {:induction false} LongestRunAttained(flags: seq<bool>) returns (i: nat, j: nat)
    ensures i <= j <= |flags| && j - i == LongestRun(flags)
    ensures forall k :: i <= k < j ==> flags[k]
  {
    if |flags| == 0 {
      return 0, 0;
    }
    var p := flags[..|flags| - 1];
    TrailingRunIsRun(flags);
    if TrailingRun(flags) > LongestRun(p) {
      i, j := |flags| - TrailingRun(flags), |flags|;
    } else {
      i, j := LongestRunAttained(p);
    }
  }

  /** The longest run is zero exactly when there is no true flag. */
  lemma {:induction false} NoDryDayNoSpell(flags: seq<bool>)
    ensures LongestRun(flags) == 0 <==> forall k :: 0 <= k < |flags| ==> !flags[k]
  {
    if LongestRun(flags) == 0 {
      forall k | 0 <= k < |flags|
        ensures !flags[k]
      {
        if flags[k] {
          RunBounded(flags, k, k + 1);
        }
      }
    } else {
      var i, j := LongestRunAttained(flags);
      assert flags[i];
    }
  }
}
