/** Pattern matching of LIKE (src/generic_predicate.c:203-221) and the three laws
    that say what it means. */
module LikePatterns {

  function SkipPercents(p: string): (q: string)
    ensures |q| <= |p| && (q != "" ==> q[0] != '%')
  {
    if p != "" && p[0] == '%' then SkipPercents(p[1..]) else p
  }

  // A percent sign stands for any text, an underscore for any character.
  predicate LikeMatch(p: string, t: string)
    decreases |p|
  {
    if p == "" then t == ""
    else if p[0] == '%' then
      var q := SkipPercents(p[1..]);
      q == "" || exists i :: 0 <= i <= |t| && LikeMatch(q, t[i..])
    else t != "" && (p[0] == '_' || p[0] == t[0]) && LikeMatch(p[1..], t[1..])
  }

  // The matcher of the source, which tries the suffixes one after another.
  method Match(pattern: string, text: string) returns (matched: bool)
    ensures matched <==> LikeMatch(pattern, text)
    decreases |pattern|
  {
    if pattern == "" {
      return text == "";
    }
    if pattern[0] == '%' {
      var p := pattern[1..];
      while p != "" && p[0] == '%'
        invariant |p| < |pattern| && SkipPercents(p) == SkipPercents(pattern[1..])
        decreases |p|
      {
        p := p[1..];
      }
      if p == "" {
        return true;
      }
      for i := 0 to |text|
        invariant forall k :: 0 <= k < i ==> !LikeMatch(p, text[k..])
      {
        var here := Match(p, text[i..]);
        if here {
          return true;
        }
      }
      matched := Match(p, text[|text|..]);
      return;
    }
    if text == "" {
      return false;
    }
    if pattern[0] == '_' || pattern[0] == text[0] {
      matched := Match(pattern[1..], text[1..]);
      return;
    }
    return false;
  }

  // Without a percent sign a pattern matches character by character.
  lemma {:induction false} LikeCharacters(p: string, t: string)
    requires '%' !in p
    ensures LikeMatch(p, t) <==> |p| == |t| && forall i :: 0 <= i < |p| ==> p[i] == '_' || p[i] == t[i]
  {
    if p != "" && t != "" {
      LikeCharacters(p[1..], t[1..]);
      assert p == [p[0]] + p[1..] && t == [t[0]] + t[1..];
    }
  }

  // Without wildcards it matches itself only.
  lemma LikeLiteral(p: string, t: string)
    requires '%' !in p && '_' !in p
    ensures LikeMatch(p, t) <==> p == t
  {
    LikeCharacters(p, t);
    assert forall i :: 0 <= i < |p| ==> p[i] in p;
  }

  // A match of `p` with a beginning and of `q` with an end of the text.
  ghost predicate Around(p: string, q: string, t: string, i: nat, j: nat) {
    i <= j <= |t| && LikeMatch(p, t[..i]) && LikeMatch(q, t[j..])
  }

  // Behind a percent sign the rest has to match somewhere.
  lemma LikeSomewhere(q: string, t: string)
    ensures LikeMatch("%" + q, t) <==> exists j :: 0 <= j <= |t| && LikeMatch(q, t[j..])
  {
    var r := SkipPercents(q);
    assert ("%" + q)[1..] == q;
    if r == "" {
      AllPercents(q, t[|t|..]);
    } else if q[0] == '%' {
      assert r == SkipPercents(q[1..]);
      forall j, k | 0 <= j <= |t| && 0 <= k <= |t[j..]| ensures t[j..][k..] == t[j + k..] {
      }
      assert t[0..] == t;
    }
  }

  lemma AllPercents(q: string, t: string)
    requires SkipPercents(q) == "" && (q == "" ==> t == "")
    ensures LikeMatch(q, t)
  {
  }

  // A percent sign between two patterns stands for any text between their matches.
  lemma {:induction false} LikeAround(p: string, q: string, t: string)
    ensures LikeMatch(p + "%" + q, t) <==> exists i: nat, j: nat :: Around(p, q, t, i, j)
    decreases |p|
  {
    if p == "" {
      assert p + "%" + q == "%" + q;
      LikeSomewhere(q, t);
      FromTheStart(p, q, t);
    } else if p[0] != '%' {
      assert (p + "%" + q)[1..] == p[1..] + "%" + q;
      if t != "" {
        LikeAround(p[1..], q, t[1..]);
        OneCharacter(p, q, t);
      } else {
        forall i: nat, j: nat ensures !Around(p, q, t, i, j) {
          NeedsText(p, q, i, j);
        }
      }
    } else {
      PercentFirst(p, q, t);
    }
  }

  lemma FromTheStart(p: string, q: string, t: string)
    requires LikeMatch(p, "")
    ensures (exists i: nat, j: nat :: Around(p, q, t, i, j)) <== exists j :: 0 <= j <= |t| && LikeMatch(q, t[j..])
    ensures (exists i: nat, j: nat :: Around(p, q, t, i, j)) ==> exists j :: 0 <= j <= |t| && LikeMatch(q, t[j..])
  {
    if j :| 0 <= j <= |t| && LikeMatch(q, t[j..]) {
      assert t[..0] == "";
      assert Around(p, q, t, 0, j);
    }
  }

  lemma NeedsText(p: string, q: string, i: nat, j: nat)
    requires p != "" && p[0] != '%'
    ensures !Around(p, q, "", i, j)
  {
  }

  lemma OneCharacter(p: string, q: string, t: string)
    requires p != "" && p[0] != '%' && t != ""
    ensures (exists i: nat, j: nat :: Around(p, q, t, i, j)) <==>
      (p[0] == '_' || p[0] == t[0]) && exists i: nat, j: nat :: Around(p[1..], q, t[1..], i, j)
  {
    if i: nat, j: nat :| Around(p, q, t, i, j) {
      assert t[..i][1..] == t[1..][..i - 1] && t[1..][j - 1..] == t[j..];
      assert Around(p[1..], q, t[1..], i - 1, j - 1);
    }
    if i: nat, j: nat :| Around(p[1..], q, t[1..], i, j) && (p[0] == '_' || p[0] == t[0]) {
      assert t[..i + 1][1..] == t[1..][..i] && t[1..][j..] == t[j + 1..];
      assert Around(p, q, t, i + 1, j + 1);
    }
  }

  lemma {:induction false} SkipAcross(p: string, q: string)
    ensures SkipPercents(p + "%" + q) == if SkipPercents(p) == "" then SkipPercents(q) else SkipPercents(p) + "%" + q
  {
    if p == "" {
      assert (p + "%" + q)[1..] == q;
    } else {
      assert (p + "%" + q)[1..] == p[1..] + "%" + q;
      if p[0] == '%' {
        SkipAcross(p[1..], q);
      }
    }
  }

  lemma {:induction false} PercentFirst(p: string, q: string, t: string)
    requires p != "" && p[0] == '%'
    ensures LikeMatch(p + "%" + q, t) <==> exists i: nat, j: nat :: Around(p, q, t, i, j)
    decreases |p|, 0
  {
    var r := SkipPercents(p[1..]);
    assert (p + "%" + q)[1..] == p[1..] + "%" + q;
    SkipAcross(p[1..], q);
    if r == "" {
      LikeSomewhere(q, t);
      assert ("%" + q)[1..] == q;
      FromTheStart(p, q, t);
    } else {
      forall k | 0 <= k <= |t|
        ensures LikeMatch(r + "%" + q, t[k..]) <==> exists i: nat, j: nat :: Around(r, q, t[k..], i, j)
      {
        LikeAround(r, q, t[k..]);
      }
      Shifted(p, r, q, t);
    }
  }

  // A match somewhere is a match of the percent sign with what stands before it.
  lemma Shifted(p: string, r: string, q: string, t: string)
    requires p != "" && p[0] == '%' && r == SkipPercents(p[1..]) != ""
    ensures (exists k: nat, i: nat, j: nat :: k <= |t| && Around(r, q, t[k..], i, j)) <==>
      exists i: nat, j: nat :: Around(p, q, t, i, j)
  {
    if k: nat, i: nat, j: nat :| k <= |t| && Around(r, q, t[k..], i, j) {
      assert t[..k + i][k..] == t[k..][..i] && t[k..][j..] == t[k + j..];
      assert Around(p, q, t, k + i, k + j);
    }
    if i: nat, j: nat :| Around(p, q, t, i, j) {
      var k :| 0 <= k <= i && LikeMatch(r, t[..i][k..]);
      assert t[..i][k..] == t[k..][..i - k] && t[k..][j - k..] == t[j..];
      assert Around(r, q, t[k..], i - k, j - k);
    }
  }
}
