/** Code-point order on strings, the order the sorted listings use, and stripping white space from both ends. */
module Strings {

  predicate Less(a: string, b: string) {
    if b == [] then false
    else if a == [] then true
    else a[0] < b[0] || (a[0] == b[0] && Less(a[1..], b[1..]))
  }

  /** In a dictionary of code points `a` stands before `b`. */
  ghost predicate ComesBefore(a: string, b: string) {
    || (|a| < |b| && a == b[..|a|])
    || exists i :: DiffersAt(a, b, i) && a[i] < b[i]
  }

  /** The first `i` characters agree and the next do not. */
  predicate DiffersAt(a: string, b: string, i: int) {
    0 <= i < |a| && i < |b| && a[..i] == b[..i] && a[i] != b[i]
  }

  lemma DiffersTail(a: string, b: string, i: int)
    requires a != [] && b != [] && a[0] == b[0] && i >= 0
    ensures DiffersAt(a, b, i + 1) <==> DiffersAt(a[1..], b[1..], i)
  {
    if i < |a| - 1 && i < |b| - 1 {
      assert a[..i + 1] == [a[0]] + a[1..][..i] && b[..i + 1] == [b[0]] + b[1..][..i];
      assert a[1..][..i] == a[..i + 1][1..] && b[1..][..i] == b[..i + 1][1..];
    }
  }

  lemma ComesBeforeTail(a: string, b: string)
    requires a != [] && b != [] && a[0] == b[0]
    ensures ComesBefore(a, b) <==> ComesBefore(a[1..], b[1..])
  {
    var c, d := a[1..], b[1..];
    if |a| < |b| {
      assert b[..|a|] == [b[0]] + d[..|c|] && a == [a[0]] + c;
      assert d[..|c|] == b[..|a|][1..];
    }
    if i :| DiffersAt(c, d, i) && c[i] < d[i] {
      DiffersTail(a, b, i);
      assert DiffersAt(a, b, i + 1) && a[i + 1] < b[i + 1];
    }
    if i :| DiffersAt(a, b, i) && a[i] < b[i] {
      DiffersTail(a, b, i - 1);
      assert DiffersAt(c, d, i - 1) && c[i - 1] < d[i - 1];
    }
  }

  lemma HeadsDiffer(a: string, b: string)
    requires a != [] && b != [] && a[0] != b[0]
    ensures ComesBefore(a, b) <==> a[0] < b[0]
  {
    assert a[..0] == b[..0];
    assert DiffersAt(a, b, 0);
    assert forall i :: 0 < i <= |a| ==> a[..i][0] == a[0];
    assert forall i :: 0 < i <= |b| ==> b[..i][0] == b[0];
  }

  lemma {:induction false} LessMeans(a: string, b: string)
    ensures Less(a, b) <==> ComesBefore(a, b)
    decreases |a|
  {
    if a == [] || b == [] {
      assert forall i :: !DiffersAt(a, b, i);
    } else if a[0] == b[0] {
      LessMeans(a[1..], b[1..]);
      ComesBeforeTail(a, b);
      hide ComesBefore;
    } else {
      HeadsDiffer(a, b);
      hide ComesBefore;
    }
  }

  lemma {:induction false} Trichotomy(a: string, b: string)
    ensures Less(a, b) || a == b || Less(b, a)
    ensures !(Less(a, b) && Less(b, a))
    decreases |a| + |b|
  {
    if a != [] && b != [] {
      Trichotomy(a[1..], b[1..]);
      if a[0] == b[0] && a[1..] == b[1..] {
        assert a == [a[0]] + a[1..] && b == [b[0]] + b[1..];
      }
    }
  }

  lemma {:induction false} Transitive(a: string, b: string, c: string)
    requires Less(a, b) && Less(b, c)
    ensures Less(a, c)
  {
    if a != [] && a[0] == b[0] == c[0] {
      Transitive(a[1..], b[1..], c[1..]);
    }
  }

  predicate IsSpace(c: char) {
    var n := c as int;
    9 <= n <= 13 || 28 <= n <= 32 || n == 0x85 || n == 0xA0 || n == 0x1680 || 0x2000 <= n <= 0x200A
    || n == 0x2028 || n == 0x2029 || n == 0x202F || n == 0x205F || n == 0x3000
  }

  function StripLeft(s: string): string {
    if s != "" && IsSpace(s[0]) then StripLeft(s[1..]) else s
  }

  function StripRight(s: string): string {
    if s != "" && IsSpace(s[|s| - 1]) then StripRight(s[..|s| - 1]) else s
  }

  function Strip(s: string): string { StripRight(StripLeft(s)) }

  lemma {:induction false} StripLeftIsEmpty(s: string)
    ensures StripLeft(s) == "" <==> forall i :: 0 <= i < |s| ==> IsSpace(s[i])
    ensures StripLeft(s) != "" ==> !IsSpace(StripLeft(s)[0])
  {
    if s != "" && IsSpace(s[0]) {
      StripLeftIsEmpty(s[1..]);
      assert s == [s[0]] + s[1..];
    }
  }

  lemma {:induction false} StripRightKeepsFirst(s: string)
    requires s != "" && !IsSpace(s[0])
    ensures StripRight(s) != "" && StripRight(s)[0] == s[0] && !IsSpace(StripRight(s)[|StripRight(s)| - 1])
  {
    if IsSpace(s[|s| - 1]) { StripRightKeepsFirst(s[..|s| - 1]); }
  }

  lemma StripIsEmpty(s: string)
    ensures Strip(s) == "" <==> forall i :: 0 <= i < |s| ==> IsSpace(s[i])
    ensures Strip(s) != "" ==> !IsSpace(Strip(s)[0]) && !IsSpace(Strip(s)[|Strip(s)| - 1])
  {
    StripLeftIsEmpty(s);
    if StripLeft(s) != "" { StripRightKeepsFirst(StripLeft(s)); }
  }

  predicate AreSpaces(s: string) {
    forall i :: 0 <= i < |s| ==> IsSpace(s[i])
  }

  /** `t` is what is left of `s` without the blanks at its ends. */
  ghost predicate IsStripped(s: string, t: string) {
    && (exists l, r :: s == l + t + r && AreSpaces(l) && AreSpaces(r))
    && (t != "" ==> !IsSpace(t[0]) && !IsSpace(t[|t| - 1]))
  }

  lemma {:induction false} LeftBlanks(s: string) returns (l: string)
    ensures s == l + StripLeft(s) && AreSpaces(l)
  {
    if s != "" && IsSpace(s[0]) {
      l := LeftBlanks(s[1..]);
      l := [s[0]] + l;
    } else {
      l := "";
    }
  }

  lemma {:induction false} RightBlanks(s: string) returns (r: string)
    ensures s == StripRight(s) + r && AreSpaces(r)
  {
    if s != "" && IsSpace(s[|s| - 1]) {
      var init := s[..|s| - 1];
      r := RightBlanks(init);
      assert s == init + [s[|s| - 1]];
      r := r + [s[|s| - 1]];
    } else {
      r := "";
    }
  }

  lemma StripIsExact(s: string)
    ensures IsStripped(s, Strip(s))
  {
    var l := LeftBlanks(s);
    var r := RightBlanks(StripLeft(s));
    assert s == l + Strip(s) + r;
    StripIsEmpty(s);
  }

  lemma StrippedIsBlank(s: string, t: string)
    requires IsStripped(s, t)
    ensures t == "" <==> AreSpaces(s)
  {
    hide IsSpace;
    var l, r :| s == l + t + r && AreSpaces(l) && AreSpaces(r);
    if t != "" { assert s[|l|] == t[0]; }
  }

  /** There is only one way to take the blanks off. */
  lemma StrippedIsUnique(s: string, t: string, u: string)
    requires IsStripped(s, t) && IsStripped(s, u)
    ensures t == u
  {
    StrippedIsBlank(s, t);
    StrippedIsBlank(s, u);
    if t != "" {
      var l, r :| s == l + t + r && AreSpaces(l) && AreSpaces(r);
      var l', r' :| s == l' + u + r' && AreSpaces(l') && AreSpaces(r');
      BlanksAreFewer(l, t, r, l', u, r');
      BlanksAreFewer(l', u, r', l, t, r);
      assert t == s[|l|..|l| + |t|] && u == s[|l|..|l| + |t|];
    }
  }

  lemma BlanksAreFewer(l: string, t: string, r: string, l': string, u: string, r': string)
    requires l + t + r == l' + u + r' && AreSpaces(l) && AreSpaces(r)
    requires u != "" && !IsSpace(u[0]) && !IsSpace(u[|u| - 1])
    ensures |l| <= |l'| && |l'| + |u| <= |l| + |t|
  {
    hide IsSpace;
    var s := l' + u + r';
    assert s[|l'|] == u[0] && s[|l'| + |u| - 1] == u[|u| - 1];
    assert forall i :: 0 <= i < |l| ==> s[i] == l[i];
    assert forall i :: |l| + |t| <= i < |s| ==> s[i] == r[i - |l| - |t|];
  }

  lemma StripIsIdentity(s: string)
    requires s != "" && !IsSpace(s[0]) && !IsSpace(s[|s| - 1])
    ensures Strip(s) == s
  {
  }
}
