/** Character classes and the whitespace edits every cleaner is built from: Python's
    str.strip(), re.sub(r'\s+', ' ', s), single-character replacement and deletion.
    Only ASCII is modelled: Lower folds A-Z and nothing else. */
module Text {

  /** Python's str.isspace() and the regex class \s on ASCII: space, \t \n \v \f \r and
      the information separators \x1c-\x1f. */
  predicate IsSpace(c: char) {
    c == ' ' || 9 <= c as int <= 13 || 28 <= c as int <= 31
  }

  /** str.lower() and re.IGNORECASE folding on ASCII. */
  function Lower(c: char): char {
    if 'A' <= c <= 'Z' then (c as int + 32) as char else c
  }

  function LowerStr(s: string): (r: string)
    ensures |r| == |s|
    ensures forall i | 0 <= i < |s| :: r[i] == Lower(s[i])
  {
    seq(|s|, i requires 0 <= i < |s| => Lower(s[i]))
  }

  predicate NoSpace(s: string) {
    forall i | 0 <= i < |s| :: !IsSpace(s[i])
  }

  /** No leading and no trailing whitespace. */
  predicate Trimmed(s: string) {
    |s| == 0 || (!IsSpace(s[0]) && !IsSpace(s[|s| - 1]))
  }

  /** Every whitespace character is a plain space and none is followed by whitespace:
      no runs of whitespace. */
  predicate SingleSpaced(s: string) {
    forall i | 0 <= i < |s| && IsSpace(s[i]) :: s[i] == ' ' && (i + 1 == |s| || !IsSpace(s[i + 1]))
  }

  predicate EndsWith(s: string, t: string) {
    |t| <= |s| && s[|s| - |t|..] == t
  }

  lemma EndsWithAppend(s: string, t: string)
    ensures EndsWith(s + t, t)
  {
    assert (s + t)[|s + t| - |t|..] == t;
  }

  lemma EndsWithSelf(s: string)
    ensures EndsWith(s, s)
  {
    assert s[|s| - |s|..] == s;
  }

  lemma EndsWithCons(c: char, u: string, t: string)
    requires EndsWith(u, t)
    ensures EndsWith([c] + u, t)
  {
    assert ([c] + u)[|[c] + u| - |t|..] == u[|u| - |t|..];
  }

  /** The characters of s that are not whitespace, in order. */
  function Visible(s: string): (r: string)
    ensures |r| <= |s|
  {
    if |s| == 0 then []
    else if IsSpace(s[0]) then Visible(s[1..])
    else [s[0]] + Visible(s[1..])
  }

  lemma VisibleAppend(a: string, b: string)
    ensures Visible(a + b) == Visible(a) + Visible(b)
  {
    if |a| == 0 {
      assert a + b == b;
    } else {
      assert (a + b)[0] == a[0];
      assert (a + b)[1..] == a[1..] + b;
      VisibleAppend(a[1..], b);
    }
  }

  /** The leading-whitespace half of str.strip(). */
  function StripLeft(s: string): (r: string)
    ensures |r| <= |s|
    ensures |r| > 0 ==> !IsSpace(r[0])
  {
    if |s| > 0 && IsSpace(s[0]) then StripLeft(s[1..]) else s
  }

  /** StripLeft removes exactly the leading whitespace. */
  lemma {:induction false} StripLeftDrops(s: string)
    ensures StripLeft(s) == s[|s| - |StripLeft(s)|..]
    ensures forall i | 0 <= i < |s| - |StripLeft(s)| :: IsSpace(s[i])
  {
    if |s| > 0 && IsSpace(s[0]) {
      StripLeftDrops(s[1..]);
    }
  }

  /** The trailing-whitespace half of str.strip(). */
  function StripRight(s: string): (r: string)
    ensures |r| <= |s| && r == s[..|r|]
    ensures forall i | |r| <= i < |s| :: IsSpace(s[i])
    ensures |r| > 0 ==> !IsSpace(r[|r| - 1])
  {
    if |s| > 0 && IsSpace(s[|s| - 1]) then StripRight(s[..|s| - 1]) else s
  }

  /** Python's str.strip(): the slice of s between its leading and trailing whitespace. */
  function Strip(s: string): (r: string)
    ensures Trimmed(r)
    ensures |r| <= |s|
    ensures forall c | c in r :: c in s
    ensures Trimmed(s) ==> r == s
    ensures SingleSpaced(s) ==> SingleSpaced(r)
    ensures Visible(r) == Visible(s)
  {
    var m := StripRight(s);
    var r := StripLeft(m);
    StripLeftDrops(m);
    assert |r| > 0 ==> r[|r| - 1] == m[|m| - 1];
    StripVisible(s, m, r);
    StripSlice(s, m, r);
    r
  }

  lemma StripVisible(s: string, m: string, r: string)
    requires |m| <= |s| && m == s[..|m|] && forall i | |m| <= i < |s| :: IsSpace(s[i])
    requires |r| <= |m| && r == m[|m| - |r|..] && forall i | 0 <= i < |m| - |r| :: IsSpace(m[i])
    ensures Visible(r) == Visible(s)
  {
    TrailingInvisible(s, m);
    LeadingInvisible(m, r);
  }

  lemma TrailingInvisible(s: string, m: string)
    requires |m| <= |s| && m == s[..|m|] && forall i | |m| <= i < |s| :: IsSpace(s[i])
    ensures Visible(m) == Visible(s)
  {
    var tail := s[|m|..];
    assert forall i | 0 <= i < |tail| :: IsSpace(tail[i]) by {
      forall i | 0 <= i < |tail| ensures IsSpace(tail[i]) {
        assert tail[i] == s[|m| + i];
      }
    }
    SpacesInvisible(m, tail);
    assert s == m + tail;
  }

  lemma LeadingInvisible(m: string, r: string)
    requires |r| <= |m| && r == m[|m| - |r|..] && forall i | 0 <= i < |m| - |r| :: IsSpace(m[i])
    ensures Visible(r) == Visible(m)
  {
    var head := m[..|m| - |r|];
    assert forall i | 0 <= i < |head| :: IsSpace(head[i]);
    SpacesInvisible(head, r);
    assert m == head + r;
  }

  /** Adding whitespace before or after a string does not change what is visible. */
  lemma SpacesInvisible(a: string, b: string)
    ensures (forall i | 0 <= i < |a| :: IsSpace(a[i])) ==> Visible(a + b) == Visible(b)
    ensures (forall i | 0 <= i < |b| :: IsSpace(b[i])) ==> Visible(a + b) == Visible(a)
  {
    VisibleAppend(a, b);
    if forall i | 0 <= i < |a| :: IsSpace(a[i]) {
      AllSpaceInvisible(a);
    }
    if forall i | 0 <= i < |b| :: IsSpace(b[i]) {
      AllSpaceInvisible(b);
      assert Visible(a) + [] == Visible(a);
    }
  }

  lemma StripSlice(s: string, m: string, r: string)
    requires m == StripRight(s) && r == StripLeft(m)
    requires r == m[|m| - |r|..]
    ensures SingleSpaced(s) ==> SingleSpaced(r)
    ensures forall c | c in r :: c in s
  {
    var d := |m| - |r|;
    assert forall k | 0 <= k < |r| :: r[k] == s[d + k];
    forall c | c in r ensures c in s {
      var k :| 0 <= k < |r| && r[k] == c;
      assert s[d + k] == c;
    }
    if SingleSpaced(s) {
      forall i | 0 <= i < |r| && IsSpace(r[i])
        ensures r[i] == ' ' && (i + 1 == |r| || !IsSpace(r[i + 1]))
      {
        assert IsSpace(s[d + i]);
      }
    }
  }

  lemma AllSpaceInvisible(s: string)
    requires forall i | 0 <= i < |s| :: IsSpace(s[i])
    ensures Visible(s) == []
  {
    if |s| > 0 {
      AllSpaceInvisible(s[1..]);
    }
  }

  /** re.sub(r'\s+', ' ', s): every maximal run of whitespace becomes a single space. */
  function Collapse(s: string): (r: string)
    ensures SingleSpaced(r)
    ensures |r| <= |s|
    ensures |s| > 0 ==> |r| > 0 && r[0] == (if IsSpace(s[0]) then ' ' else s[0])
    decreases |s|
  {
    if |s| == 0 then []
    else if IsSpace(s[0]) then [' '] + Collapse(StripLeft(s[1..]))
    else [s[0]] + Collapse(s[1..])
  }

  /** Collapse keeps every visible character, in order, and adds only spaces. */
  lemma {:induction false} CollapseKeepsVisible(s: string)
    ensures Visible(Collapse(s)) == Visible(s)
    ensures forall c | c in Collapse(s) :: c == ' ' || (c in s && !IsSpace(c))
    decreases |s|
  {
    if |s| > 0 {
      if IsSpace(s[0]) {
        CollapseKeepsVisible(StripLeft(s[1..]));
        CollapseVisibleSpace(s, StripLeft(s[1..]));
      } else {
        CollapseKeepsVisible(s[1..]);
        assert ([s[0]] + Collapse(s[1..]))[1..] == Collapse(s[1..]);
      }
    }
  }

  /** The step of CollapseKeepsVisible at a run of whitespace, which becomes one space. */
  lemma CollapseVisibleSpace(s: string, t: string)
    requires |s| > 0 && IsSpace(s[0]) && t == StripLeft(s[1..])
    requires Visible(Collapse(t)) == Visible(t)
    requires forall c | c in Collapse(t) :: c == ' ' || (c in t && !IsSpace(c))
    ensures Visible(Collapse(s)) == Visible(s)
    ensures forall c | c in Collapse(s) :: c == ' ' || (c in s && !IsSpace(c))
  {
    StripLeftKeeps(s[1..]);
    assert s == [s[0]] + s[1..];
    VisibleCons(s[0], s[1..]);
    VisibleCons(' ', Collapse(t));
    assert forall c | c in s[1..] :: c in s;
  }

  /** Stripping leading whitespace keeps what is visible and adds no character. */
  lemma {:induction false} StripLeftKeeps(u: string)
    ensures Visible(StripLeft(u)) == Visible(u)
    ensures forall c | c in StripLeft(u) :: c in u
    decreases |u|
  {
    if |u| > 0 && IsSpace(u[0]) {
      StripLeftKeeps(u[1..]);
      assert u == [u[0]] + u[1..];
      VisibleCons(u[0], u[1..]);
      assert forall c | c in u[1..] :: c in u;
    }
  }

  /** Collapsing changes nothing in a string that has no runs of whitespace. */
  lemma {:induction false} CollapseFixesSingleSpaced(s: string)
    requires SingleSpaced(s)
    ensures Collapse(s) == s
    decreases |s|
  {
    if |s| > 0 {
      if IsSpace(s[0]) {
        assert |s| == 1 || !IsSpace(s[1]);
        assert StripLeft(s[1..]) == s[1..];
      }
      assert SingleSpaced(s[1..]) by {
        forall i | 0 <= i < |s[1..]| && IsSpace(s[1..][i])
          ensures s[1..][i] == ' ' && (i + 1 == |s[1..]| || !IsSpace(s[1..][i + 1]))
        {
          assert s[1..][i] == s[i + 1];
        }
      }
      CollapseFixesSingleSpaced(s[1..]);
    }
  }

  /** A whitespace-free head passes through Collapse untouched. */
  lemma {:induction false} CollapsePrepend(p: string, t: string)
    requires NoSpace(p)
    ensures Collapse(p + t) == p + Collapse(t)
  {
    if |p| == 0 {
      assert p + t == t;
    } else {
      assert (p + t)[0] == p[0];
      assert (p + t)[1..] == p[1..] + t;
      CollapsePrepend(p[1..], t);
    }
  }

  lemma {:induction false} StripLeftAppend(u: string, t: string)
    requires |t| == 0 || !IsSpace(t[0])
    ensures StripLeft(u + t) == StripLeft(u) + t
  {
    if |u| == 0 {
      assert u + t == t;
    } else {
      assert (u + t)[0] == u[0];
      assert (u + t)[1..] == u[1..] + t;
      if IsSpace(u[0]) {
        StripLeftAppend(u[1..], t);
      }
    }
  }

  /** A whitespace-free tail passes through Collapse untouched. */
  lemma {:induction false} CollapseAppend(p: string, t: string)
    requires NoSpace(t)
    ensures Collapse(p + t) == Collapse(p) + t
    decreases |p|
  {
    if |p| == 0 {
      assert p + t == t;
      assert t + [] == t;
      CollapsePrepend(t, []);
    } else {
      var rest := if IsSpace(p[0]) then StripLeft(p[1..]) else p[1..];
      CollapseAppend(rest, t);
      CollapseStep(p, t, rest);
    }
  }

  /** One step of CollapseAppend: the head character of p is handled the same way with or
      without the tail t. */
  lemma CollapseStep(p: string, t: string, rest: string)
    requires NoSpace(t) && |p| > 0
    requires rest == if IsSpace(p[0]) then StripLeft(p[1..]) else p[1..]
    requires Collapse(rest + t) == Collapse(rest) + t
    ensures Collapse(p + t) == Collapse(p) + t
  {
    var h := if IsSpace(p[0]) then [' '] else [p[0]];
    CollapseHead(p, t, rest);
    CollapseUnfold(p + t, h, rest + t);
    CollapseUnfold(p, h, rest);
    Associative(h, Collapse(rest), t);
  }

  lemma Associative<T>(a: seq<T>, b: seq<T>, c: seq<T>)
    ensures a + (b + c) == (a + b) + c
  {
  }

  lemma CollapseHead(p: string, t: string, rest: string)
    requires NoSpace(t) && |p| > 0
    requires rest == if IsSpace(p[0]) then StripLeft(p[1..]) else p[1..]
    ensures (p + t)[0] == p[0]
    ensures rest + t == if IsSpace(p[0]) then StripLeft((p + t)[1..]) else (p + t)[1..]
  {
    assert (p + t)[1..] == p[1..] + t;
    if IsSpace(p[0]) {
      StripLeftAppend(p[1..], t);
    }
  }

  lemma CollapseUnfold(s: string, h: string, rest: string)
    requires |s| > 0 && h == if IsSpace(s[0]) then [' '] else [s[0]]
    requires rest == if IsSpace(s[0]) then StripLeft(s[1..]) else s[1..]
    ensures Collapse(s) == h + Collapse(rest)
  {
  }

  /** A suffix that starts and ends with visible characters survives str.strip(). */
  lemma StripKeepsSuffix(s: string, t: string)
    requires EndsWith(s, t) && |t| > 0
    requires !IsSpace(t[0]) && !IsSpace(t[|t| - 1])
    ensures EndsWith(Strip(s), t)
    ensures Strip(s) == StripLeft(s[..|s| - |t|]) + t
  {
    var u := s[..|s| - |t|];
    assert s == u + t;
    assert StripRight(s) == s;
    StripLeftAppend(u, t);
  }

  /** A prefix that starts and ends with visible characters survives str.strip(). */
  lemma StripKeepsPrefix(s: string, p: string)
    requires p <= s && |p| > 0
    requires !IsSpace(p[0]) && !IsSpace(p[|p| - 1])
    ensures p <= Strip(s)
  {
    StripRightKeepsPrefix(s, p);
  }

  lemma {:induction false} StripRightKeepsPrefix(s: string, p: string)
    requires p <= s && |p| > 0 && !IsSpace(p[|p| - 1])
    ensures p <= StripRight(s)
    decreases |s|
  {
    if |s| > |p| && IsSpace(s[|s| - 1]) {
      StripRightKeepsPrefix(s[..|s| - 1], p);
    }
  }

  /** A whitespace-free suffix survives Collapse. */
  lemma CollapseKeepsSuffix(s: string, t: string)
    requires EndsWith(s, t) && NoSpace(t)
    ensures EndsWith(Collapse(s), t)
  {
    assert s == s[..|s| - |t|] + t;
    CollapseAppend(s[..|s| - |t|], t);
  }

  /** A whitespace-free prefix survives Collapse. */
  lemma CollapseKeepsPrefix(s: string, p: string)
    requires p <= s && NoSpace(p)
    ensures p <= Collapse(s)
  {
    assert s == p + s[|p|..];
    CollapsePrepend(p, s[|p|..]);
  }

  /** re.sub(r'\s+', ' ', s).strip(): runs of whitespace become one space, and the ends
      are trimmed. */
  function Normalize(s: string): (r: string)
    ensures Trimmed(r) && SingleSpaced(r)
    ensures forall c | c in r :: c == ' ' || (c in s && !IsSpace(c))
    ensures Visible(r) == Visible(s)
  {
    CollapseKeepsVisible(s);
    Strip(Collapse(s))
  }

  /** Each maximal run of whitespace becomes exactly one space: a run w between a part x
      that does not end in whitespace and a part y that does not start with it. */
  lemma {:induction false} CollapseRun(x: string, w: string, y: string)
    requires |x| == 0 || !IsSpace(x[|x| - 1])
    requires |w| > 0 && forall i | 0 <= i < |w| :: IsSpace(w[i])
    requires |y| == 0 || !IsSpace(y[0])
    ensures Collapse(x + w + y) == Collapse(x) + " " + Collapse(y)
    decreases |x|
  {
    if |x| == 0 {
      assert x + w + y == w + y;
      CollapseRunFirst(w, y);
    } else {
      var rest := if IsSpace(x[0]) then StripLeft(x[1..]) else x[1..];
      RunRest(x, w, y, rest);
      CollapseRun(rest, w, y);
      Associative(Collapse(rest), " ", Collapse(y));
      CollapseRunStep(x, x + w + y, rest, rest + w + y, " " + Collapse(y));
      Associative(Collapse(x), " ", Collapse(y));
    }
  }

  /** A leading run of whitespace becomes one space. */
  lemma CollapseRunFirst(w: string, y: string)
    requires |w| > 0 && forall i | 0 <= i < |w| :: IsSpace(w[i])
    requires |y| == 0 || !IsSpace(y[0])
    ensures Collapse(w + y) == " " + Collapse(y)
  {
    var s := w + y;
    assert s[0] == w[0];
    RunStripped(w, y);
    CollapseUnfold(s, [' '], y);
  }

  /** After the first character of a whitespace run, StripLeft takes the rest of it. */
  lemma RunStripped(w: string, y: string)
    requires |w| > 0 && forall i | 0 <= i < |w| :: IsSpace(w[i])
    requires |y| == 0 || !IsSpace(y[0])
    ensures StripLeft((w + y)[1..]) == y
  {
    assert (w + y)[1..] == w[1..] + y;
    StripLeftAppend(w[1..], y);
    assert forall i | 0 <= i < |w[1..]| :: w[1..][i] == w[i + 1];
    AllSpaceStripped(w[1..]);
  }

  lemma CollapseRunStep(x: string, s: string, rest: string, t: string, tail: string)
    requires |x| > 0 && |s| > 0 && s[0] == x[0]
    requires rest == if IsSpace(x[0]) then StripLeft(x[1..]) else x[1..]
    requires t == if IsSpace(x[0]) then StripLeft(s[1..]) else s[1..]
    requires Collapse(t) == Collapse(rest) + tail
    ensures Collapse(s) == Collapse(x) + tail
  {
    var h := if IsSpace(x[0]) then [' '] else [x[0]];
    CollapseUnfold(s, h, t);
    CollapseUnfold(x, h, rest);
    Associative(h, Collapse(rest), tail);
  }

  lemma {:induction false} AllSpaceStripped(u: string)
    requires forall i | 0 <= i < |u| :: IsSpace(u[i])
    ensures StripLeft(u) == []
    decreases |u|
  {
    if |u| > 0 {
      AllSpaceStripped(u[1..]);
    }
  }

  /** The step of CollapseRun: the head of x is handled alike with or without w + y. */
  lemma RunRest(x: string, w: string, y: string, rest: string)
    requires |x| > 0 && !IsSpace(x[|x| - 1])
    requires rest == if IsSpace(x[0]) then StripLeft(x[1..]) else x[1..]
    ensures |rest| < |x| && (|rest| == 0 || !IsSpace(rest[|rest| - 1]))
    ensures (x + w + y)[0] == x[0]
    ensures rest + w + y == if IsSpace(x[0]) then StripLeft((x + w + y)[1..]) else (x + w + y)[1..]
  {
    assert (x + w + y)[1..] == x[1..] + (w + y);
    if IsSpace(x[0]) {
      StripLeftKeepsTail(x[1..], w + y);
      StripLeftDrops(x[1..]);
    }
  }

  /** Leading whitespace is stripped from u alone when u holds a visible character at its
      end. */
  lemma {:induction false} StripLeftKeepsTail(u: string, t: string)
    requires |u| > 0 && !IsSpace(u[|u| - 1])
    ensures StripLeft(u + t) == StripLeft(u) + t
    decreases |u|
  {
    assert (u + t)[0] == u[0];
    if IsSpace(u[0]) {
      assert (u + t)[1..] == u[1..] + t;
      StripLeftKeepsTail(u[1..], t);
    }
  }

  /** Normalising brings in no character but the space. */
  lemma NormalizeAvoids(s: string, bad: set<char>)
    requires ' ' !in bad
    requires forall c | c in bad :: c !in s
    ensures forall c | c in bad :: c !in Normalize(s)
  {
  }

  /** s is t itself or ends with a space followed by t. */
  predicate EndsWithWord(s: string, t: string) {
    s == t || EndsWith(s, " " + t)
  }

  /** A name ending in t as a word ends in t. */
  lemma WordEndsWith(s: string, t: string)
    requires EndsWithWord(s, t)
    ensures EndsWith(s, t)
  {
    if s != t {
      assert s[|s| - |t|..] == (" " + t)[1..];
    }
  }

  /** Collapse ends in a space when its input does. */
  lemma {:induction false} CollapseEndsInSpace(s: string)
    requires |s| > 0 && IsSpace(s[|s| - 1])
    ensures |Collapse(s)| > 0 && Collapse(s)[|Collapse(s)| - 1] == ' '
    decreases |s|
  {
    var h := if IsSpace(s[0]) then [' '] else [s[0]];
    var rest := if IsSpace(s[0]) then StripLeft(s[1..]) else s[1..];
    CollapseUnfold(s, h, rest);
    if |rest| > 0 {
      if IsSpace(s[0]) {
        StripLeftDrops(s[1..]);
      }
      assert rest[|rest| - 1] == s[|s| - 1];
      CollapseEndsInSpace(rest);
      var c := Collapse(rest);
      assert (h + c)[|h + c| - 1] == c[|c| - 1];
    }
  }

  /** A space followed by a whitespace-free tail survives Collapse: runs before the tail
      shrink to the one space. */
  lemma CollapseKeepsWord(s: string, t: string)
    requires EndsWith(s, " " + t) && NoSpace(t)
    ensures EndsWith(Collapse(s), " " + t)
  {
    var p := s[..|s| - |t|];
    SplitBeforeWord(s, t);
    CollapseAppend(p, t);
    CollapseEndsInSpace(p);
    SpaceThenWord(Collapse(p), t);
  }

  lemma SplitBeforeWord(s: string, t: string)
    requires EndsWith(s, " " + t)
    ensures s == s[..|s| - |t|] + t
    ensures |s| - |t| > 0 && s[|s| - |t| - 1] == ' '
  {
    assert s[|s| - |t| - 1..] == " " + t;
    assert s[|s| - |t| - 1] == (" " + t)[0];
  }

  lemma SpaceThenWord(c: string, t: string)
    requires |c| > 0 && c[|c| - 1] == ' '
    ensures EndsWith(c + t, " " + t)
  {
    assert (c + t)[|c + t| - |t| - 1..] == [c[|c| - 1]] + t;
  }

  /** After str.strip(), a space-separated trailing word is either all that is left or
      still preceded by its space. */
  lemma StripKeepsWord(s: string, t: string)
    requires EndsWith(s, " " + t) && |t| > 0
    requires !IsSpace(t[0]) && !IsSpace(t[|t| - 1])
    ensures EndsWithWord(Strip(s), t)
  {
    StripKeepsSuffix(s, t);
    var u := s[..|s| - |t|];
    var v := StripLeft(u);
    StripLeftDrops(u);
    if |v| > 0 {
      assert v[|v| - 1] == u[|u| - 1] == ' ';
      assert (v + t)[|v + t| - |t| - 1..] == [v[|v| - 1]] + t;
    } else {
      assert v + t == t;
    }
  }

  /** A trailing word stays a trailing word through Collapse and str.strip(). */
  lemma NormalizeKeepsWord(s: string, t: string)
    requires EndsWithWord(s, t) && |t| > 0 && NoSpace(t)
    ensures EndsWithWord(Strip(Collapse(s)), t)
  {
    if s == t {
      assert t + [] == t;
      CollapsePrepend(t, []);
      assert Trimmed(t);
    } else {
      CollapseKeepsWord(s, t);
      StripKeepsWord(Collapse(s), t);
    }
  }

  /** re.sub(r'[...]', ' ', s): every character of cs becomes a space. */
  function SpaceOut(s: string, cs: set<char>): (r: string)
    ensures |r| == |s|
    ensures forall i | 0 <= i < |s| :: r[i] == (if s[i] in cs then ' ' else s[i])
    ensures ' ' !in cs ==> forall c | c in cs :: c !in r
    ensures forall c | c in r :: c == ' ' || (c in s && c !in cs)
  {
    seq(|s|, i requires 0 <= i < |s| => if s[i] in cs then ' ' else s[i])
  }

  /** re.sub(r'[._]', ' ', name): the separator replacement every cleaner starts with. */
  function ReplaceSeparators(name: string): (r: string)
    ensures |r| == |name|
    ensures '.' !in r && '_' !in r
    ensures forall i | 0 <= i < |name| :: r[i] == (if name[i] == '.' || name[i] == '_' then ' ' else name[i])
  {
    SpaceOut(name, {'.', '_'})
  }

  /** Python's s[:j], including negative j counted from the end. */
  function Head(s: string, j: int): (r: string)
    ensures 0 <= j <= |s| ==> r == s[..j]
    ensures r <= s
  {
    if j >= |s| then s
    else if j >= 0 then s[..j]
    else if |s| + j >= 0 then s[..|s| + j]
    else []
  }

  /** re.sub(r'[...]', '', s): every character of cs is deleted. */
  function Delete(s: string, cs: set<char>): (r: string)
    ensures forall c | c in cs :: c !in r
    ensures forall c | c in r :: c in s
    ensures multiset(r) <= multiset(s)
    ensures forall c | c !in cs :: multiset(r)[c] == multiset(s)[c]
  {
    if |s| == 0 then []
    else
      assert s == [s[0]] + s[1..];
      if s[0] in cs then Delete(s[1..], cs) else [s[0]] + Delete(s[1..], cs)
  }

  /** Deletion works character by character, so it keeps the order of what it keeps:
      deleting from two parts is deleting from each. */
  lemma {:induction false} DeleteAppend(a: string, b: string, cs: set<char>)
    ensures Delete(a + b, cs) == Delete(a, cs) + Delete(b, cs)
  {
    if |a| > 0 {
      assert (a + b)[0] == a[0] && (a + b)[1..] == a[1..] + b;
      DeleteAppend(a[1..], b, cs);
      if a[0] !in cs {
        Associative([a[0]], Delete(a[1..], cs), Delete(b, cs));
      }
    } else {
      assert a + b == b;
    }
  }

  /** One character is deleted exactly when it lies in cs. */
  lemma DeleteOne(c: char, cs: set<char>)
    ensures Delete([c], cs) == if c in cs then [] else [c]
  {
    assert [c][1..] == [];
  }
  /** Deleting characters from a text and from its visible characters commute, when no
      whitespace is deleted. */
  lemma {:induction false} VisibleDelete(s: string, cs: set<char>)
    requires forall c | c in cs :: !IsSpace(c)
    ensures Visible(Delete(s, cs)) == Delete(Visible(s), cs)
    decreases |s|
  {
    if |s| > 0 {
      VisibleDelete(s[1..], cs);
      VisibleDeleteStep(s[0], s[1..], cs);
      assert s == [s[0]] + s[1..];
    }
  }

  /** The step of VisibleDelete for one more character in front. */
  lemma VisibleDeleteStep(c: char, r: string, cs: set<char>)
    requires forall c | c in cs :: !IsSpace(c)
    requires Visible(Delete(r, cs)) == Delete(Visible(r), cs)
    ensures Visible(Delete([c] + r, cs)) == Delete(Visible([c] + r), cs)
  {
    DeleteCons(c, r, cs);
    VisibleCons(c, r);
    if c !in cs {
      VisibleCons(c, Delete(r, cs));
    }
    if !IsSpace(c) {
      DeleteCons(c, Visible(r), cs);
    }
  }

  /** Replacing characters by spaces hides them from the visible text, just as deleting
      them would. */
  lemma {:induction false} VisibleSpaceOut(s: string, cs: set<char>)
    requires forall c | c in cs :: !IsSpace(c)
    ensures Visible(SpaceOut(s, cs)) == Delete(Visible(s), cs)
    decreases |s|
  {
    if |s| > 0 {
      VisibleSpaceOut(s[1..], cs);
      var x := if s[0] in cs then ' ' else s[0];
      SpaceOutCons(s, cs);
      VisibleCons(x, SpaceOut(s[1..], cs));
      assert s == [s[0]] + s[1..];
      VisibleCons(s[0], s[1..]);
      DeleteCons(s[0], Visible(s[1..]), cs);
    }
  }

  lemma SpaceOutCons(s: string, cs: set<char>)
    requires |s| > 0
    ensures SpaceOut(s, cs) == [if s[0] in cs then ' ' else s[0]] + SpaceOut(s[1..], cs)
  {
    var r, t := SpaceOut(s, cs), SpaceOut(s[1..], cs);
    forall i | 0 <= i < |t| ensures r[i + 1] == t[i] {
      assert s[1..][i] == s[i + 1];
    }
  }

  /** Visible on a text with a known first character. */
  lemma VisibleCons(c: char, r: string)
    ensures Visible([c] + r) == if IsSpace(c) then Visible(r) else [c] + Visible(r)
  {
    assert ([c] + r)[0] == c && ([c] + r)[1..] == r;
  }

  /** A text whose visible characters are those left after deleting a (no whitespace)
      and then b shows what deleting both from the original shows. */
  lemma DeleteThenVisible(s: string, a: set<char>, b: set<char>, r: string)
    requires forall c | c in a :: !IsSpace(c)
    requires Visible(r) == Delete(Visible(Delete(s, a)), b)
    ensures Visible(r) == Delete(Visible(s), a + b)
  {
    VisibleDelete(s, a);
    DeleteTwice(Visible(s), a, b);
  }

  /** Deleting one set of characters and then another is deleting both at once. */
  lemma {:induction false} DeleteTwice(s: string, a: set<char>, b: set<char>)
    ensures Delete(Delete(s, a), b) == Delete(s, a + b)
    decreases |s|
  {
    if |s| > 0 {
      DeleteTwice(s[1..], a, b);
      if s[0] !in a {
        DeleteCons(s[0], Delete(s[1..], a), b);
      }
    }
  }

  /** Delete on a text with a known first character. */
  lemma DeleteCons(c: char, r: string, cs: set<char>)
    ensures Delete([c] + r, cs) == if c in cs then Delete(r, cs) else [c] + Delete(r, cs)
  {
    assert ([c] + r)[0] == c && ([c] + r)[1..] == r;
  }
}
