/**
  The argument scanner of the vulnerability heuristics (src/idamesh/domain/services/vuln_heuristics.py).

  `Lex` is the reading state: parenthesis depth, open quote, pending backslash.  What an argument and a
  matching parenthesis are is said in terms of it; `Split` is the source's loop.
*/
module CallArgs {
  import opened Common
  import opened Strings

  datatype Lex = Lex(depth: int, quote: Option<char>, escaped: bool)

  // just after the call's opening parenthesis
  const INSIDE := Lex(1, None, false)

  function Step(s: Lex, c: char): Lex {
    if s.quote.Some? then
      if s.escaped then s.(escaped := false)
      else if c == '\\' then s.(escaped := true)
      else if c == s.quote.value then s.(quote := None)
      else s
    else if c == '"' || c == '\'' then s.(quote := Some(c))
    else if c == '(' then s.(depth := s.depth + 1)
    else if c == ')' then s.(depth := s.depth - 1)
    else s
  }

  function After(s: Lex, text: string): Lex {
    if text == "" then s else Step(After(s, text[..|text| - 1]), text[|text| - 1])
  }

  predicate IsTop(s: Lex) { s.quote == None && s.depth == 1 }

  /** Reading `text` from inside the call, character `k` is a `c` at the top level. */
  predicate TopLevel(text: string, k: int, c: char) {
    0 <= k < |text| && text[k] == c && IsTop(After(INSIDE, text[..k]))
  }

  /** The first top-level closing parenthesis of `body` is at `n`. */
  ghost predicate IsFirstClose(body: string, n: int) {
    TopLevel(body, n, ')') && forall k :: 0 <= k < n ==> !TopLevel(body, k, ')')
  }

  /** `j` is where the call's parenthesis, opened at `start`, is closed. */
  ghost predicate IsClose(text: string, start: nat, j: int) {
    start < j < |text| && IsFirstClose(text[start + 1..], j - start - 1)
  }

  ghost predicate Unbroken(a: string) {
    forall k :: !TopLevel(a, k, ',') && !TopLevel(a, k, ')')
  }

  /** Balanced parentheses and quotes, and no comma outside them. */
  ghost predicate IsArgument(a: string) {
    Unbroken(a) && After(INSIDE, a) == INSIDE
  }

  ghost predicate AreArguments(args: seq<string>) {
    args != [] && forall a :: a in args ==> IsArgument(a)
  }

  function Join(args: seq<string>): string
    requires args != []
  {
    if |args| == 1 then args[0] else args[0] + "," + Join(args[1..])
  }

  /**
    The arguments of the call opened at `start`: what lies before the matching parenthesis, cut at the
    top-level commas.
  */
  ghost predicate IsSplit(text: string, start: nat, args: seq<string>) {
    && AreArguments(args)
    && exists j :: IsClose(text, start, j) && Join(args) == text[start + 1..j]
  }

  // ---------------------------------------------------------------- reading

  lemma {:induction false} AfterConcat(s: Lex, a: string, b: string)
    ensures After(s, a + b) == After(After(s, a), b)
  {
    if b == "" {
      assert a + b == a;
    } else {
      assert (a + b)[..|a + b| - 1] == a + b[..|b| - 1];
      AfterConcat(s, a, b[..|b| - 1]);
    }
  }

  lemma TopLevelInPrefix(a: string, b: string, k: int, c: char)
    requires k < |a|
    ensures TopLevel(a + b, k, c) <==> TopLevel(a, k, c)
  {
    if 0 <= k { assert (a + b)[..k] == a[..k]; }
  }

  /** After something that reads back to the inside state, reading starts afresh. */
  lemma TopLevelAfter(a: string, b: string, k: int, c: char)
    requires After(INSIDE, a) == INSIDE && |a| <= k
    ensures TopLevel(a + b, k, c) <==> TopLevel(b, k - |a|, c)
  {
    if k < |a + b| {
      assert (a + b)[..k] == a + b[..k - |a|];
      AfterConcat(INSIDE, a, b[..k - |a|]);
    }
  }

  // ---------------------------------------------------------------- what the top level is

  predicate IsQuote(c: char) { c == '"' || c == '\'' }

  /** The backslashes directly before position `k`, counted back to the quote at `h`. */
  function Backslashes(text: string, h: int, k: int): nat
    requires 0 <= h < k <= |text|
    decreases k
  {
    if k - 1 > h && text[k - 1] == '\\' then 1 + Backslashes(text, h, k - 1) else 0
  }

  /** The same quote again, not escaped. */
  predicate EndsLiteral(text: string, h: int, j: int) {
    0 <= h < j < |text| && text[j] == text[h] && Backslashes(text, h, j) % 2 == 0
  }

  /** The literal that starts at `h` has not ended before `k`. */
  predicate InLiteral(text: string, h: int, k: int) {
    0 <= h < k <= |text| && forall j :: h < j < k ==> !EndsLiteral(text, h, j)
  }

  /** A quote starts a literal unless it stands in an earlier one. */
  predicate StartsLiteral(text: string, h: int)
    decreases h
  {
    0 <= h < |text| && IsQuote(text[h]) && forall g :: 0 <= g < h ==> !(StartsLiteral(text, g) && InLiteral(text, g, h))
  }

  predicate IsLiteralAt(text: string, h: int, k: int) {
    0 <= h < k <= |text| && StartsLiteral(text, h) && InLiteral(text, h, k)
  }

  predicate IsQuoted(text: string, k: int) {
    exists h :: 0 <= h < k && IsLiteralAt(text, h, k)
  }

  /** The characters `c` outside string literals. */
  function Unquoted(text: string, c: char): nat {
    if text == "" then 0
    else
      var init := text[..|text| - 1];
      Unquoted(init, c) + (if text[|text| - 1] == c && !IsQuoted(init, |init|) then 1 else 0)
  }

  lemma {:induction false} BackslashesInPrefix(a: string, text: string, h: int, k: int)
    requires a <= text && 0 <= h < k <= |a|
    ensures Backslashes(a, h, k) == Backslashes(text, h, k)
    decreases k
  {
    if k - 1 > h { BackslashesInPrefix(a, text, h, k - 1); }
  }

  lemma InLiteralInPrefix(a: string, text: string, h: int, k: int)
    requires a <= text && k <= |a|
    ensures InLiteral(a, h, k) <==> InLiteral(text, h, k)
  {
    forall j | 0 <= h < j < k ensures EndsLiteral(a, h, j) <==> EndsLiteral(text, h, j) {
      BackslashesInPrefix(a, text, h, j);
    }
  }

  lemma {:induction false} StartsInPrefix(a: string, text: string, h: int)
    requires a <= text && h < |a|
    ensures StartsLiteral(a, h) <==> StartsLiteral(text, h)
    decreases h
  {
    forall g | 0 <= g < h ensures (StartsLiteral(a, g) && InLiteral(a, g, h))
      <==> (StartsLiteral(text, g) && InLiteral(text, g, h)) {
      StartsInPrefix(a, text, g);
      InLiteralInPrefix(a, text, g, h);
    }
  }

  lemma LiteralInPrefix(a: string, text: string, h: int, k: int)
    requires a <= text && k <= |a|
    ensures IsLiteralAt(a, h, k) <==> IsLiteralAt(text, h, k)
  {
    if 0 <= h < k {
      StartsInPrefix(a, text, h);
      InLiteralInPrefix(a, text, h, k);
    }
    hide StartsLiteral, InLiteral;
  }

  lemma QuotedInPrefix(a: string, text: string, k: int)
    requires a <= text && k <= |a|
    ensures IsQuoted(a, k) <==> IsQuoted(text, k)
  {
    forall h ensures IsLiteralAt(a, h, k) <==> IsLiteralAt(text, h, k) {
      LiteralInPrefix(a, text, h, k);
    }
    hide IsLiteralAt;
  }

  /** A position stands in one literal at most. */
  lemma OneLiteral(text: string, g: int, h: int, k: int)
    requires IsLiteralAt(text, g, k) && IsLiteralAt(text, h, k)
    ensures g == h
  {
    assert g < h ==> InLiteral(text, g, h);
    assert h < g ==> InLiteral(text, h, g);
    hide EndsLiteral;
  }

  /** A literal that reaches past a character reached it. */
  lemma LiteralShrinks(text: string, h: int, k: int)
    requires IsLiteralAt(text, h, k + 1)
    ensures h < k ==> IsLiteralAt(text, h, k) && !EndsLiteral(text, h, k)
  {
    hide EndsLiteral, StartsLiteral;
  }

  /**
    The reading state knows the literal it is in: the quote that started it and whether the next
    character is escaped.
  */
  ghost predicate KnowsQuote(text: string, s: Lex) {
    if s.quote == None then !s.escaped && !IsQuoted(text, |text|)
    else exists h :: IsLiteralAt(text, h, |text|) && s.quote == Some(text[h])
                     && s.escaped == (Backslashes(text, h, |text|) % 2 == 1)
  }

  lemma ReadsInLiteral(init: string, c: char, s: Lex)
    requires KnowsQuote(init, s) && s.quote.Some?
    ensures KnowsQuote(init + [c], Step(s, c))
  {
    var text, n := init + [c], |init|;
    var end := n + 1;
    var h :| IsLiteralAt(init, h, n) && s.quote == Some(init[h]) && s.escaped == (Backslashes(init, h, n) % 2 == 1);
    LiteralInPrefix(init, text, h, n);
    BackslashesInPrefix(init, text, h, n);
    assert IsQuote(text[h]);
    if EndsLiteral(text, h, n) {
      forall g ensures !IsLiteralAt(text, g, end) {
        if IsLiteralAt(text, g, end) {
          LiteralShrinks(text, g, n);
          if g < n { OneLiteral(text, g, h, n); }
        }
      }
    } else {
      assert IsLiteralAt(text, h, end);
      assert Backslashes(text, h, end) == if c == '\\' then 1 + Backslashes(text, h, n) else 0;
    }
    hide StartsLiteral, InLiteral;
  }

  lemma ReadsOutside(init: string, c: char, s: Lex)
    requires KnowsQuote(init, s) && s.quote == None
    ensures KnowsQuote(init + [c], Step(s, c))
  {
    var text, n := init + [c], |init|;
    var end := n + 1;
    forall h ensures !IsLiteralAt(text, h, n) {
      LiteralInPrefix(init, text, h, n);
      assert 0 <= h < n ==> !IsLiteralAt(init, h, n);
    }
    if IsQuote(c) {
      forall g | 0 <= g < n ensures !(StartsLiteral(text, g) && InLiteral(text, g, n)) {
        assert !IsLiteralAt(text, g, n);
      }
      assert IsLiteralAt(text, n, end) && Backslashes(text, n, end) == 0;
    } else {
      forall h ensures !IsLiteralAt(text, h, end) {
        if IsLiteralAt(text, h, end) { LiteralShrinks(text, h, n); }
      }
    }
    hide InLiteral;
  }

  /**
    The reading state is what the text says: the depth is one more than the parentheses left open
    outside string literals.
  */
  lemma {:induction false} DepthIsBalance(text: string)
    ensures var s := After(INSIDE, text);
      s.depth == 1 + Unquoted(text, '(') - Unquoted(text, ')') && KnowsQuote(text, s)
        && (s.quote.Some? <==> IsQuoted(text, |text|))
  {
    if text != "" {
      var init, c := text[..|text| - 1], text[|text| - 1];
      DepthIsBalance(init);
      var s := After(INSIDE, init);
      assert text == init + [c];
      if s.quote.Some? {
        ReadsInLiteral(init, c, s);
      } else {
        ReadsOutside(init, c, s);
      }
      hide IsLiteralAt, Backslashes;
    }
  }

  /** A top-level character stands outside string literals with as many parentheses closed as opened before it. */
  lemma TopLevelIsBalanced(text: string, k: int, c: char)
    ensures TopLevel(text, k, c)
       <==> 0 <= k < |text| && text[k] == c && !IsQuoted(text, k)
            && Unquoted(text[..k], '(') == Unquoted(text[..k], ')')
  {
    if 0 <= k < |text| {
      DepthIsBalance(text[..k]);
      QuotedInPrefix(text[..k], text, k);
    }
    hide IsQuoted, Unquoted, KnowsQuote;
  }

  // ---------------------------------------------------------------- joining

  lemma {:induction false} JoinAppends(args: seq<string>, last: string)
    requires args != []
    ensures Join(args + [last]) == Join(args) + "," + last
  {
    if |args| > 1 {
      JoinAppends(args[1..], last);
      assert (args + [last])[1..] == args[1..] + [last];
    } else {
      assert (args + [last])[1..] == [last];
    }
  }

  lemma JoinExtends(args: seq<string>, last: string, c: char)
    ensures Join(args + [last + [c]]) == Join(args + [last]) + [c]
  {
    if args != [] {
      JoinAppends(args, last);
      JoinAppends(args, last + [c]);
    }
  }

  /** One more argument in front keeps the text balanced. */
  lemma JoinedStep(first: string, rest: string)
    requires IsArgument(first) && After(INSIDE, rest) == INSIDE && forall k :: !TopLevel(rest, k, ')')
    ensures After(INSIDE, first + "," + rest) == INSIDE
    ensures forall k :: !TopLevel(first + "," + rest, k, ')')
  {
    var head := first + ",";
    assert head[..|first|] == first && After(INSIDE, head) == INSIDE;
    assert forall k :: !TopLevel(first, k, ')');
    hide After, TopLevel;
    AfterConcat(INSIDE, head, rest);
    forall k ensures !TopLevel(head + rest, k, ')') {
      if k < |first| {
        assert head + rest == first + ("," + rest);
        TopLevelInPrefix(first, "," + rest, k, ')');
      } else if k >= |head| {
        TopLevelAfter(head, rest, k, ')');
      } else {
        CommaIsNoClose(first, rest);
      }
    }
  }

  lemma CommaIsNoClose(first: string, rest: string)
    ensures !TopLevel(first + "," + rest, |first|, ')')
  {
    assert (first + "," + rest)[|first|] == ',';
  }

  /** Joined arguments read back to the inside state without a top-level closing parenthesis. */
  lemma {:induction false} JoinedIsBalanced(args: seq<string>)
    requires AreArguments(args)
    ensures After(INSIDE, Join(args)) == INSIDE
    ensures forall k :: !TopLevel(Join(args), k, ')')
  {
    assert args[0] in args;
    assert IsArgument(args[0]);
    if |args| > 1 {
      JoinedIsBalanced(args[1..]);
      hide After, TopLevel, IsArgument;
      JoinedStep(args[0], Join(args[1..]));
    }
  }

  // ---------------------------------------------------------------- the laws

  /** Two argument lists that join to the same text are the same list. */
  lemma {:induction false} JoinIsInjective(a: seq<string>, b: seq<string>)
    requires AreArguments(a) && AreArguments(b) && Join(a) == Join(b)
    ensures a == b
  {
    FirstArgumentEnds(a, b);
    FirstArgumentEnds(b, a);
    assert a[0] == Join(a)[..|a[0]|] && b[0] == Join(b)[..|b[0]|];
    if |a| > 1 && |b| > 1 {
      assert Join(a[1..]) == Join(a)[|a[0]| + 1..] && Join(b[1..]) == Join(b)[|b[0]| + 1..];
      JoinIsInjective(a[1..], b[1..]);
    }
    assert a == [a[0]] + a[1..] && b == [b[0]] + b[1..];
  }

  lemma FirstArgumentEnds(a: seq<string>, b: seq<string>)
    requires AreArguments(a) && AreArguments(b) && Join(a) == Join(b)
    ensures |b[0]| <= |a[0]|
  {
    var n := |a[0]|;
    if n < |b[0]| {
      assert b[0][..n] == Join(b)[..n] == Join(a)[..n] == a[0];
      assert |a| > 1 && a[0] in a && b[0] in b;
      assert b[0][n] == Join(b)[n] == Join(a)[n] == ',';
      assert TopLevel(b[0], n, ',');
    }
  }

  /** A call has at most one split. */
  lemma SplitIsUnique(text: string, start: nat, a: seq<string>, b: seq<string>)
    requires IsSplit(text, start, a) && IsSplit(text, start, b)
    ensures a == b
  {
    var i :| IsClose(text, start, i) && Join(a) == text[start + 1..i];
    var j :| IsClose(text, start, j) && Join(b) == text[start + 1..j];
    assert i == j;
    JoinIsInjective(a, b);
  }

  /** Putting arguments between parentheses and splitting again gives the same arguments, whatever follows. */
  lemma JoinThenSplit(args: seq<string>, rest: string)
    requires AreArguments(args)
    ensures IsSplit("(" + Join(args) + ")" + rest, 0, args)
  {
    var inner := Join(args);
    var text := "(" + inner + ")" + rest;
    JoinedIsBalanced(args);
    assert text[1..] == inner + (")" + rest);
    forall k | 0 <= k < |inner| ensures !TopLevel(text[1..], k, ')') {
      TopLevelInPrefix(inner, ")" + rest, k, ')');
    }
    TopLevelAfter(inner, ")" + rest, |inner|, ')');
    assert IsClose(text, 0, |inner| + 1);
    assert text[1..|inner| + 1] == inner;
  }

  // ---------------------------------------------------------------- the loop

  /** The loop's state: `args` are done, `current` is being read, and nothing has closed the call. */
  ghost predicate IsReading(body: string, i: nat, s: Lex, args: seq<string>, current: string) {
    && i <= |body| && s == After(INSIDE, body[..i]) == After(INSIDE, current) && s.depth >= 1
      && (s.escaped ==> s.quote.Some?)
    && (forall a :: a in args ==> IsArgument(a)) && Unbroken(current)
    && Join(args + [current]) == body[..i]
    && forall k :: 0 <= k < i ==> !TopLevel(body, k, ')')
  }

  lemma ReadsOn(body: string, i: nat, s: Lex, args: seq<string>, current: string)
    requires IsReading(body, i, s, args, current) && i < |body|
    requires !(IsTop(s) && (body[i] == ',' || body[i] == ')'))
    ensures IsReading(body, i + 1, Step(s, body[i]), args, current + [body[i]])
  {
    var next := current + [body[i]];
    JoinExtends(args, current, body[i]);
    assert body[..i + 1] == body[..i] + [body[i]];
    assert next[..|current|] == current;
    hide Join;
    forall k ensures !TopLevel(next, k, ',') && !TopLevel(next, k, ')') {
      if k < |current| {
        TopLevelInPrefix(current, [body[i]], k, ',');
        TopLevelInPrefix(current, [body[i]], k, ')');
      }
    }
  }

  lemma ReadsComma(body: string, i: nat, s: Lex, args: seq<string>, current: string)
    requires IsReading(body, i, s, args, current) && i < |body| && IsTop(s) && body[i] == ','
    ensures IsReading(body, i + 1, s, args + [current], "")
  {
    JoinAppends(args + [current], "");
    assert body[..i + 1] == body[..i] + [body[i]];
    assert IsArgument(current);
    hide Join;
  }

  method Split(text: string, openParen: nat) returns (r: Option<seq<string>>)
    requires openParen < |text| && text[openParen] == '('
    ensures r.None? <==> forall j :: !IsClose(text, openParen, j)
    ensures r.Some? ==> IsSplit(text, openParen, r.value)
  {
    ghost var body := text[openParen + 1..];
    var depth, inStr, escaped := 0, None, false;
    var current, args := "", [];
    var i := openParen;
    while i < |text|
      invariant openParen <= i <= |text|
      invariant i == openParen ==> depth == 0 && inStr == None && !escaped && current == "" && args == []
      invariant i > openParen ==> IsReading(body, i - openParen - 1, Lex(depth, inStr, escaped), args, current)
    {
      var c := text[i];
      if i > openParen {
        assert c == body[i - openParen - 1];
        NextCharacter(body, i - openParen - 1, Lex(depth, inStr, escaped), args, current);
      }
      if inStr.Some? {
        current := current + [c];
        if escaped {
          escaped := false;
        } else if c == '\\' {
          escaped := true;
        } else if c == inStr.value {
          inStr := None;
        }
        i := i + 1;
        continue;
      }
      if c == '"' || c == '\'' {
        inStr, current := Some(c), current + [c];
      } else if c == '(' {
        depth := depth + 1;
        if depth > 1 {
          current := current + [c];
        }
      } else if c == ')' {
        depth := depth - 1;
        if depth == 0 {
          Closes(text, openParen, i, args, current);
          return Some(args + [current]);
        }
        current := current + [c];
      } else if c == ',' && depth == 1 {
        args := args + [current];
        current := "";
      } else {
        current := current + [c];
      }
      i := i + 1;
    }
    r := None;
  }

  /** What reading one more character that does not close the call leads to. */
  lemma NextCharacter(body: string, i: nat, s: Lex, args: seq<string>, current: string)
    requires IsReading(body, i, s, args, current) && i < |body|
    ensures !IsTop(s) || (body[i] != ',' && body[i] != ')') ==>
      IsReading(body, i + 1, Step(s, body[i]), args, current + [body[i]])
    ensures IsTop(s) && body[i] == ',' ==> IsReading(body, i + 1, s, args + [current], "")
  {
    if IsTop(s) && body[i] == ',' {
      ReadsComma(body, i, s, args, current);
    } else if !IsTop(s) || body[i] != ')' {
      ReadsOn(body, i, s, args, current);
    }
  }

  lemma Closes(text: string, start: nat, i: nat, args: seq<string>, current: string)
    requires start < i < |text| && text[i] == ')'
    requires IsReading(text[start + 1..], i - start - 1, INSIDE, args, current)
    ensures IsClose(text, start, i) && IsSplit(text, start, args + [current])
  {
    assert text[start + 1..][..i - start - 1] == text[start + 1..i];
    assert IsArgument(current);
    assert IsClose(text, start, i);
  }

  // ---------------------------------------------------------------- picking an argument

  /** The argument at `index`, counted from the end when negative. */
  function Arg(args: Option<seq<string>>, index: int): Option<string> {
    if args == None then None
    else if |args.value| == 1 && Strip(args.value[0]) == "" then None
    else
      var at := if index < 0 then index + |args.value| else index;
      if 0 <= at < |args.value| then Some(Strip(args.value[at])) else None
  }

  /** No argument to inspect: the list is one blank string. */
  predicate IsNoArgumentCall(args: seq<string>) {
    |args| == 1 && forall i :: 0 <= i < |args[0]| ==> IsSpace(args[0][i])
  }

  /**
    An argument is missing exactly when the list is, when the call has no arguments, or when the index
    is out of range at either end; the two ways of counting agree; and an argument has no blank ends.
  */
  lemma ArgIsExact(args: seq<string>, index: int)
    ensures Arg(Some(args), index) == None <==> IsNoArgumentCall(args) || !(-|args| <= index < |args|)
    ensures 0 <= index < |args| ==> Arg(Some(args), index) == Arg(Some(args), index - |args|)
    ensures 0 <= index < |args| && !IsNoArgumentCall(args) ==>
      Arg(Some(args), index).Some? && IsStripped(args[index], Arg(Some(args), index).value)
  {
    if |args| == 1 { StripIsEmpty(args[0]); }
    var at := if index < 0 then index + |args| else index;
    if 0 <= at < |args| { StripIsExact(args[at]); }
    hide IsStripped, Strip;
  }
}
