/** Reading back what the printer has written: which trees give exactly their own tokens. */
module JsonRoundTrip {
  import opened Common
  import opened JsonTree
  import opened JsonMachine

  // ----- strings and numbers -----

  /** The loop of `atomic` stops at the closing quote of a printed string if and only if
      the string is clean. */
  lemma {:induction false} ScanString(s: string, rest: string)
    requires NIL !in s
    ensures StringLength(Escape(s) + "\"" + rest) == |Escape(s)| <==> Clean(s)
    decreases |s|
  {
    var t := Escape(s) + "\"" + rest;
    if s == "" {
      assert t[0] == '\"';
    } else if s[0] == '\"' {
      ScanString(s[1..], rest);
      assert t[2..] == Escape(s[1..]) + "\"" + rest;
    } else if s[0] == '\\' {
      ScanAfterBackslash(s, rest);
      if |s| >= 2 && s[1] != '\"' {
        ScanString(s[2..], rest);
      }
    } else {
      ScanString(s[1..], rest);
      assert t[1..] == Escape(s[1..]) + "\"" + rest;
    }
  }

  /** A backslash takes the next printed character with it. */
  lemma ScanAfterBackslash(s: string, rest: string)
    requires s != "" && s[0] == '\\'
    ensures var t := Escape(s) + "\"" + rest;
            if |s| >= 2 && s[1] != '\"' then
              StringLength(t) == 2 + StringLength(Escape(s[2..]) + "\"" + rest) && |Escape(s)| == 2 + |Escape(s[2..])|
            else StringLength(t) != |Escape(s)|
  {
    var t := Escape(s) + "\"" + rest;
    assert Escape(s) == "\\" + Escape(s[1..]);
    if |s| >= 2 {
      assert Escape(s[1..]) == (if s[1] == '\"' then "\\\"" else [s[1]]) + Escape(s[1..][1..]) && s[1..][1..] == s[2..];
      if s[1] == '\"' {
        assert t[2] == '\"';
      } else {
        assert t[2..] == Escape(s[2..]) + "\"" + rest;
      }
    } else {
      assert s[1..] == "" && t[1] == '\"' && t[2..] == rest;
    }
  }

  /** What follows a printed value: no digit and no point. */
  predicate Stops(rest: string) {
    rest != "" ==> !InNumber(rest[0])
  }

  lemma {:induction false} ScanNumber(d: string, rest: string)
    requires (forall i :: 0 <= i < |d| ==> '0' <= d[i] <= '9') && Stops(rest)
    ensures NumberLength(d + rest) == |d|
  {
    if d != "" {
      assert (d + rest)[1..] == d[1..] + rest;
      ScanNumber(d[1..], rest);
    } else {
      assert d + rest == rest;
    }
  }

  // ----- single tokens -----

  /** The text that is left, up to white space. */
  predicate Stands(s: State, text: string) {
    text != "" && SkipWs(s.text) == text
  }

  lemma StringToken(s: State, name: CString, rest: string)
    requires Stands(s, Quote(name) + rest) && (Top(s.stack) == '{' || Top(s.stack) == '[' || Top(s.stack) == ':')
    ensures var kind := if Top(s.stack) == '{' then NAME else STRING;
            var (t, s1) := Next(s);
            && (t == Token(kind, Escape(name)) <==> Clean(name))
            && (Clean(name) ==> s1 == s.(text := rest, vtype := kind))
  {
    var after := Escape(name) + "\"" + rest;
    assert Quote(name) + rest == "\"" + after && ("\"" + after)[1..] == after;
    ScanString(name, rest);
    var n := StringLength(after);
    assert Clean(name) ==> after[..n] == Escape(name) && after[n + 1..] == rest;
    assert |after[..n]| == n;
  }

  lemma NumberToken(s: State, n: CInt, rest: string)
    requires Stands(s, Decimal(n) + rest) && (Top(s.stack) == '[' || Top(s.stack) == ':') && Stops(rest)
    ensures var (t, s1) := Next(s);
            && (t == Token(NUMBER, Decimal(n)) <==> n >= 0)
            && (n >= 0 ==> s1 == s.(text := rest, vtype := NUMBER))
  {
    if n >= 0 {
      NumberAt(s, Digits(n), rest);
    } else {
      assert (Decimal(n) + rest)[0] == '-';
    }
  }

  lemma NumberAt(s: State, d: string, rest: string)
    requires d != "" && (forall i :: 0 <= i < |d| ==> '0' <= d[i] <= '9') && Stops(rest)
    requires Stands(s, d + rest) && (Top(s.stack) == '[' || Top(s.stack) == ':')
    ensures Next(s) == (Token(NUMBER, d), s.(text := rest, vtype := NUMBER))
  {
    ScanDecimal(d, rest);
  }

  lemma ScanDecimal(d: string, rest: string)
    requires d != "" && (forall i :: 0 <= i < |d| ==> '0' <= d[i] <= '9') && Stops(rest)
    ensures var t := d + rest;
            && t[0] == d[0] && NumberLength(t[1..]) == |d| - 1
            && [d[0]] + t[1..][..|d| - 1] == d && t[1..][|d| - 1..] == rest
  {
    var t := d + rest;
    assert t[1..] == d[1..] + rest;
    ScanNumber(d[1..], rest);
    assert t[1..][..|d| - 1] == d[1..] && t[1..][|d| - 1..] == rest;
    assert [d[0]] + d[1..] == d;
  }

  /** A token of one character that is not the start of a value. */
  lemma CharToken(s: State, c: char, rest: string)
    requires Stands(s, [c] + rest)
    ensures Next(s) == Dispatch(s.(text := rest), c)
  {
    assert ([c] + rest)[1..] == rest;
  }

  // ----- trees -----

  /** The next tokens are those given if and only if `ok`, and then the machine is in `t`. */
  predicate Reads(s: State, ts: seq<Token>, ok: bool, t: State) {
    var r := Run(s, |ts|);
    (r.0 == ts <==> ok) && (ok ==> r.1 == t)
  }

  lemma ReadsOne(s: State, token: Token)
    ensures Reads(s, [token], Next(s).0 == token, Next(s).1)
  {
    assert Run(Next(s).1, 0) == ([], Next(s).1);
    assert Run(s, 1) == ([Next(s).0] + [], Next(s).1);
    assert [Next(s).0] + [] == [Next(s).0] && [token][0] == token;
  }

  lemma ReadsThen(s: State, a: seq<Token>, ok: bool, t: State, b: seq<Token>, ok': bool, u: State)
    requires Reads(s, a, ok, t) && (ok ==> Reads(t, b, ok', u))
    ensures Reads(s, a + b, ok && ok', u)
  {
    RunSplit(s, |a|, |b|);
    var x := Run(s, |a|);
    var y := Run(x.1, |b|);
    RunSplit(x.1, |b|, 0);
    Halves(x.0, y.0, a, b);
  }

  lemma Halves<T>(x: seq<T>, y: seq<T>, a: seq<T>, b: seq<T>)
    requires |x| == |a|
    ensures x + y == a + b <==> x == a && y == b
  {
    if x + y == a + b {
      assert x == (x + y)[..|x|] && a == (a + b)[..|a|] && y == (x + y)[|x|..] && b == (a + b)[|a|..];
    }
  }

  predicate StartsToken(t: string) {
    t != "" && t[0] != ' ' && t[0] != '\n'
  }

  lemma RenderStarts(v: Json, rest: string)
    ensures StartsToken(Render(v) + rest) && SkipWs(Render(v) + rest) == Render(v) + rest
  {
    if v.Number? && v.n >= 0 {
      assert Digits(v.n)[0] in Digits(v.n);
    }
  }

  function After(s: State, v: Json, rest: string): State {
    s.(text := rest, vtype := LastType(v), deepest := Max(s.deepest, |s.stack| + Need(v)))
  }

  function AfterFrom(s: State, v: Json, i: nat, rest: string, base: string): State
    requires v.Node? && i <= |v.members|
  {
    s.(text := rest, stack := base, vtype := LastType(v), deepest := Max(s.deepest, |base| + 1 + NeedFrom(v, i)))
  }

  /** The machine stands before member `i` of a container that was opened on the stack `base`. */
  predicate AtMember(s: State, v: Json, i: nat, rest: string, base: string)
    requires v.Node? && i <= |v.members|
  {
    && SkipWs(s.text) == SkipWs(RenderFrom(v, i) + rest)
    && s.stack == base + [Open(v)] + (if v.named && i > 0 then ":" else "")
    && s.vtype == (if i == 0 then NIL else LastType(v.members[i - 1].value))
    && (v.named && i > 0 ==> s.vtype != NIL)
    && s.deepest > |base|
  }

  /** The end of a container. */
  lemma ReadEnd(s: State, v: Json, rest: string, base: string)
    requires v.Node? && AtMember(s, v, |v.members|, rest, base)
    ensures Reads(s, TokensFrom(v, |v.members|), true, AfterFrom(s, v, |v.members|, rest, base))
  {
    var text := [Close(v)] + rest;
    assert RenderFrom(v, |v.members|) + rest == "\n" + text;
    SkipNewline(text);
    CharToken(s, Close(v), rest);
    ReadsOne(s, Token(Close(v), ""));
    ClosedPair(base, Open(v));
  }

  /** The comma before a member, if there is one. */
  function Comma(i: nat): seq<Token> {
    if i > 0 then [Token(',', "")] else []
  }

  /** What stands between the comma and the next member. */
  function MemberText(v: Json, i: nat, rest: string): string
    requires v.Node? && i < |v.members|
  {
    (if v.named then Quote(v.members[i].name) + ":" else "")
    + (Render(v.members[i].value) + (RenderFrom(v, i + 1) + rest))
  }

  lemma MemberTextStarts(v: Json, i: nat, rest: string)
    requires v.Node? && i < |v.members|
    ensures RenderFrom(v, i) + rest == (if i > 0 then ",\n" else "") + MemberText(v, i, rest)
    ensures StartsToken(MemberText(v, i, rest))
  {
    var value := v.members[i].value;
    RenderStarts(value, RenderFrom(v, i + 1) + rest);
    Concat(if i > 0 then ",\n" else "", if v.named then Quote(v.members[i].name) + ":" else "",
           Render(value), RenderFrom(v, i + 1), rest);
  }

  lemma Concat(a: string, b: string, c: string, d: string, e: string)
    ensures a + b + c + d + e == a + (b + (c + (d + e)))
  {
  }

  lemma SkipNewline(text: string)
    requires StartsToken(text)
    ensures SkipWs("\n" + text) == text && SkipWs(text) == text
  {
    assert ("\n" + text)[1..] == text;
  }

  lemma ReadComma(s: State, v: Json, i: nat, rest: string, base: string) returns (t: State)
    requires v.Node? && i < |v.members| && AtMember(s, v, i, rest, base)
    ensures Reads(s, Comma(i), true, t) && Stands(t, MemberText(v, i, rest))
    ensures t == s.(text := t.text, stack := base + [Open(v)])
  {
    var text := MemberText(v, i, rest);
    MemberTextStarts(v, i, rest);
    SkipNewline(text);
    if i > 0 {
      assert ",\n" + text == [','] + ("\n" + text);
      CharToken(s, ',', "\n" + text);
      ReadsOne(s, Token(',', ""));
      ClosedPair(base, Open(v));
      t := Next(s).1;
    } else {
      assert "" + text == text && base + [Open(v)] + "" == base + [Open(v)];
      t := s;
    }
  }

  lemma ClosedPair(base: string, open: char)
    ensures (base + [open] + ":")[..|base + [open] + ":"| - 1] == base + [open]
    ensures (base + [open])[..|base + [open]| - 1] == base
    ensures base + [open] + "" == base + [open]
  {
  }

  /** The name of a member and its colon. */
  function NameTokens(v: Json, i: nat): seq<Token>
    requires v.Node? && i < |v.members|
  {
    if v.named then [Token(NAME, Escape(v.members[i].name)), Token(':', "")] else []
  }

  lemma ReadPairName(s: State, name: CString, text: string) returns (t: State)
    requires Stands(s, Quote(name) + ([':'] + text)) && Top(s.stack) == '{'
    ensures Reads(s, [Token(NAME, Escape(name)), Token(':', "")], Clean(name), t)
    ensures Clean(name) ==> t == Push(s.(text := text, vtype := NAME), ':')
  {
    StringToken(s, name, [':'] + text);
    var s1 := Next(s).1;
    ReadsOne(s, Token(NAME, Escape(name)));
    t := Next(s1).1;
    if Clean(name) {
      assert SkipWs([':'] + text) == [':'] + text;
      CharToken(s1, ':', text);
      ReadsOne(s1, Token(':', ""));
    }
    ReadsThen(s, [Token(NAME, Escape(name))], Clean(name), s1, [Token(':', "")], true, t);
  }

  lemma ReadName(s: State, v: Json, i: nat, rest: string, base: string) returns (ok: bool, t: State)
    requires v.Node? && i < |v.members| && Stands(s, MemberText(v, i, rest)) && s.stack == base + [Open(v)]
    ensures ok == (v.named ==> Clean(v.members[i].name)) && Reads(s, NameTokens(v, i), ok, t)
    ensures ok ==> Stands(t, Render(v.members[i].value) + (RenderFrom(v, i + 1) + rest))
    ensures ok ==> t.stack == base + [Open(v)] + (if v.named then ":" else "") && t.error == s.error
                   && t.deepest == if v.named then Max(s.deepest, |base| + 2) else s.deepest
  {
    var name, text := v.members[i].name, Render(v.members[i].value) + (RenderFrom(v, i + 1) + rest);
    RenderStarts(v.members[i].value, RenderFrom(v, i + 1) + rest);
    if v.named {
      Assoc(Quote(name), ":", text);
      t := ReadPairName(s, name, text);
      ok := Clean(name);
    } else {
      ClosedPair(base, Open(v));
      assert "" + text == text;
      ok, t := true, s;
    }
  }

  /** A pair whose value leaves no type behind is not closed: the next token is refused. */
  lemma ReadUnclosed(s: State, v: Json, i: nat, rest: string, base: string)
    requires v.Node? && v.named && i <= |v.members| && s.text == RenderFrom(v, i) + rest && i > 0
    requires s.stack == base + [Open(v)] + ":" && s.vtype == NIL
    ensures Run(s, |TokensFrom(v, i)|).0 != TokensFrom(v, i)
  {
    var c := if i < |v.members| then ',' else '}';
    if i < |v.members| {
      MemberTextStarts(v, i, rest);
      assert ",\n" + MemberText(v, i, rest) == [','] + ("\n" + MemberText(v, i, rest));
      CharToken(s, c, "\n" + MemberText(v, i, rest));
    } else {
      assert RenderFrom(v, i) + rest == "\n" + ([c] + rest);
      SkipNewline([c] + rest);
      CharToken(s, c, rest);
    }
    RunSplit(s, 1, |TokensFrom(v, i)| - 1);
    ReadsOne(s, TokensFrom(v, i)[0]);
    assert Run(s, |TokensFrom(v, i)|).0[0] == Run(s, 1).0[0] == Next(s).0;
  }

  /** The opening bracket of a container. */
  lemma ReadOpen(s: State, v: Json, rest: string) returns (t: State)
    requires v.Node? && Stands(s, Render(v) + rest)
    requires Top(s.stack) == '[' || Top(s.stack) == ':' || v.named
    ensures Reads(s, [Token(Open(v), "")], true, t) && AtMember(t, v, 0, rest, s.stack)
    ensures AfterFrom(t, v, 0, rest, s.stack) == After(s, v, rest)
  {
    var inner := RenderFrom(v, 0) + rest;
    Assoc([Open(v)] + "\n", RenderFrom(v, 0), rest);
    Assoc([Open(v)], "\n", inner);
    CharToken(s, Open(v), "\n" + inner);
    ReadsOne(s, Token(Open(v), ""));
    t := Next(s).1;
    assert ("\n" + inner)[1..] == inner;
    ClosedPair(s.stack, Open(v));
    assert Need(v) == 1 + NeedFrom(v, 0);
  }

  /** The parts of a member and what comes after it. */
  lemma MemberReads(s: State, v: Json, i: nat, ok: bool, s2: State, s3: State, closed: bool, end: State)
    requires v.Node? && i < |v.members|
    requires Reads(s, HeadTokens(v, i), ok, s2)
    requires ok ==> Reads(s2, Tokens(v.members[i].value), Fine(v.members[i].value), s3)
    requires ok && Fine(v.members[i].value) ==> Reads(s3, TokensFrom(v, i + 1), closed && FineFrom(v, i + 1), end)
    requires ok == (v.named ==> Clean(v.members[i].name)) && closed == (v.named ==> LastType(v.members[i].value) != NIL)
    ensures Reads(s, TokensFrom(v, i), FineFrom(v, i), end)
  {
    var value := v.members[i].value;
    var last := closed && FineFrom(v, i + 1);
    ReadsThen(s, HeadTokens(v, i), ok, s2, Tokens(value), Fine(value), s3);
    ReadsThen(s, HeadTokens(v, i) + Tokens(value), ok && Fine(value), s3, TokensFrom(v, i + 1), last, end);
    assert FineFrom(v, i) == (ok && Fine(value) && last);
  }

  /** After the value of a member the machine stands before the next one, if the value has
      left a type behind. */
  lemma NextMember(s: State, v: Json, i: nat, rest: string, base: string, s2: State)
    requires v.Node? && i < |v.members| && s.deepest > |base|
    requires s2.stack == base + [Open(v)] + (if v.named then ":" else "")
    requires s2.error == s.error && s2.deepest == if v.named then Max(s.deepest, |base| + 2) else s.deepest
    ensures var s3 := After(s2, v.members[i].value, RenderFrom(v, i + 1) + rest);
            && (v.named ==> LastType(v.members[i].value) != NIL) ==>
                 AtMember(s3, v, i + 1, rest, base)
                     && AfterFrom(s3, v, i + 1, rest, base) == AfterFrom(s, v, i, rest, base)
  {
    assert NeedFrom(v, i) == Max((if v.named then 1 else 0) + Need(v.members[i].value), NeedFrom(v, i + 1));
  }

  // ----- whole trees -----

  /** The text of a value is read as its tokens if and only if the tree is fine. */
  lemma {:induction false} ReadValue(s: State, v: Json, rest: string)
    requires Stands(s, Render(v) + rest) && Stops(rest) && |s.stack| <= s.deepest
    requires Top(s.stack) == '[' || Top(s.stack) == ':' || (v.Node? && v.named)
    ensures Reads(s, Tokens(v), Fine(v), After(s, v, rest))
    decreases v, if v.Node? then 2 * |v.members| + 3 else 0
  {
    match v {
      case Text(text) =>
        StringToken(s, text, rest);
        ReadsOne(s, Token(STRING, Escape(text)));
      case Number(n) =>
        NumberToken(s, n, rest);
        ReadsOne(s, Token(NUMBER, Decimal(n)));
      case Node(_, _) =>
        var t := ReadOpen(s, v, rest);
        ReadMembers(t, v, 0, rest, s.stack);
        ReadsThen(s, [Token(Open(v), "")], true, t, TokensFrom(v, 0), FineFrom(v, 0), After(s, v, rest));
    }
  }

  lemma {:induction false} ReadMembers(s: State, v: Json, i: nat, rest: string, base: string)
    requires v.Node? && i <= |v.members| && AtMember(s, v, i, rest, base) && Stops(rest)
    ensures Reads(s, TokensFrom(v, i), FineFrom(v, i), AfterFrom(s, v, i, rest, base))
    decreases v, 2 * (|v.members| - i) + 2
  {
    if i == |v.members| {
      ReadEnd(s, v, rest, base);
    } else {
      var value, after := v.members[i].value, RenderFrom(v, i + 1) + rest;
      var ok, s2 := ReadHead(s, v, i, rest, base);
      if ok {
        ReadValue(s2, value, after);
        ReadFurther(s, v, i, rest, base, s2);
      }
      var closed := v.named ==> LastType(value) != NIL;
      MemberReads(s, v, i, ok, s2, After(s2, value, after), closed, AfterFrom(s, v, i, rest, base));
    }
  }

  /** What stands behind the value of a member. */
  lemma {:induction false} ReadFurther(s: State, v: Json, i: nat, rest: string, base: string, s2: State)
    requires v.Node? && i < |v.members| && Stops(rest) && s.deepest > |base|
    requires s2.stack == base + [Open(v)] + (if v.named then ":" else "")
    requires s2.error == s.error && s2.deepest == if v.named then Max(s.deepest, |base| + 2) else s.deepest
    ensures var value := v.members[i].value;
            Reads(After(s2, value, RenderFrom(v, i + 1) + rest), TokensFrom(v, i + 1),
                  (v.named ==> LastType(value) != NIL) && FineFrom(v, i + 1), AfterFrom(s, v, i, rest, base))
    decreases v, 2 * (|v.members| - i) + 1
  {
    var s3 := After(s2, v.members[i].value, RenderFrom(v, i + 1) + rest);
    NextMember(s, v, i, rest, base, s2);
    if v.named ==> LastType(v.members[i].value) != NIL {
      ReadMembers(s3, v, i + 1, rest, base);
    } else {
      ReadUnclosed(s3, v, i + 1, rest, base);
    }
  }

  /** The comma, the name and the colon. */
  lemma ReadHead(s: State, v: Json, i: nat, rest: string, base: string) returns (ok: bool, t: State)
    requires v.Node? && i < |v.members| && AtMember(s, v, i, rest, base)
    ensures ok == (v.named ==> Clean(v.members[i].name)) && Reads(s, HeadTokens(v, i), ok, t)
    ensures ok ==> Stands(t, Render(v.members[i].value) + (RenderFrom(v, i + 1) + rest))
    ensures ok ==> Stops(RenderFrom(v, i + 1) + rest)
    ensures ok ==> t.stack == base + [Open(v)] + (if v.named then ":" else "") && t.error == s.error
                   && t.deepest == if v.named then Max(s.deepest, |base| + 2) else s.deepest
    ensures ok ==> (Top(t.stack) == '[' || Top(t.stack) == ':') && |t.stack| <= t.deepest
  {
    var s1 := ReadComma(s, v, i, rest, base);
    ok, t := ReadName(s1, v, i, rest, base);
    ReadsThen(s, Comma(i), true, s1, NameTokens(v, i), ok, t);
    assert Comma(i) + NameTokens(v, i) == HeadTokens(v, i);
  }

  /** A parser at the start of a text; what the type field holds does not matter. */
  function Start(text: string, vtype: char): State {
    State(text, "", vtype, OK, 0)
  }

  /** Parsing the printed text of a tree yields exactly its tokens if and only if the root is an
      object and the tree is fine; then no error is raised, the stack is empty again, and the
      whole text has been read. */
  lemma RoundTripIff(v: Json, vtype: char)
    ensures Reads(Start(Render(v), vtype), Tokens(v), v.Node? && v.named && Fine(v),
                  State("", "", LastType(v), OK, Need(v)))
  {
    var s := Start(Render(v), vtype);
    RenderStarts(v, "");
    assert Render(v) + "" == Render(v);
    if v.Node? && v.named {
      ReadValue(s, v, "");
    } else {
      RootRefused(v, vtype);
      RunSplit(s, 1, |Tokens(v)| - 1);
      ReadsOne(s, Tokens(v)[0]);
      assert Run(s, |Tokens(v)|).0[0] == Run(s, 1).0[0] == Next(s).0;
    }
  }

  /** Nothing but an object can stand outside of every container. */
  lemma RootRefused(v: Json, vtype: char)
    requires !(v.Node? && v.named)
    ensures Next(Start(Render(v), vtype)).0 != Tokens(v)[0]
  {
    RenderStarts(v, "");
    assert Render(v) + "" == Render(v);
  }

  /** A token is a value or a name with its characters, or a bracket, colon or comma without. */
  predicate Shaped(t: Token) {
    t.kind != NIL && (t.kind != NAME && t.kind != STRING && t.kind != NUMBER ==> t.slice == "")
  }

  lemma {:induction false} TokensShaped(v: Json)
    ensures forall t :: t in Tokens(v) ==> Shaped(t)
    decreases v, if v.Node? then 2 * |v.members| + 3 else 0
  {
    if v.Node? {
      MembersShaped(v, 0);
    }
  }

  lemma {:induction false} MembersShaped(v: Json, i: nat)
    requires v.Node? && i <= |v.members|
    ensures forall t :: t in TokensFrom(v, i) ==> Shaped(t)
    decreases v, |v.members| - i + 1
  {
    if i < |v.members| {
      TokensShaped(v.members[i].value);
      MembersShaped(v, i + 1);
    }
  }

  lemma TokenShape(v: Json, k: nat)
    requires k < |Tokens(v)|
    ensures Shaped(Tokens(v)[k])
  {
    TokensShaped(v);
    assert Tokens(v)[k] in Tokens(v);
  }

  lemma {:induction false} DeepestGrows(s: State, a: nat, b: nat)
    requires a <= b
    ensures Run(s, a).1.deepest <= Run(s, b).1.deepest
    decreases b - a
  {
    if a < b {
      RunSplit(s, a, 1);
      assert Run(Next(Run(s, a).1).1, 0).1 == Next(Run(s, a).1).1;
      DeepestGrows(s, a + 1, b);
    }
  }

  /** The machine reads exactly the tokens of a tree from a text, and uses it up. */
  predicate ReadsTree(text: string, vtype: char, v: Json) {
    Reads(Start(text, vtype), Tokens(v), true, State("", "", LastType(v), OK, Need(v)))
  }

  /** Before the last token there is text left, and the stack stays within its final bound. */
  lemma Halfway(v: Json, text: string, vtype: char, k: nat)
    requires ReadsTree(text, vtype, v) && k < |Tokens(v)|
    ensures var r := Run(Start(text, vtype), k);
            && r.0 == Tokens(v)[..k] && r.1.text != "" && Next(r.1).0 == Tokens(v)[k]
            && Run(Start(text, vtype), k + 1) == (Tokens(v)[..k + 1], Next(r.1).1)
            && Next(r.1).1.deepest <= Need(v)
  {
    RunPrefix(Start(text, vtype), Tokens(v), k);
    TokenShape(v, k);
  }

  lemma RunPrefix(s: State, ts: seq<Token>, k: nat)
    requires Run(s, |ts|).0 == ts && k < |ts|
    ensures Run(s, k).0 == ts[..k] && Next(Run(s, k).1).0 == ts[k]
    ensures Run(s, k + 1) == (ts[..k + 1], Next(Run(s, k).1).1)
    ensures Next(Run(s, k).1).1.deepest <= Run(s, |ts|).1.deepest
  {
    var r := Run(s, k).1;
    RunSplit(s, k, |ts| - k);
    assert ts[..k] + ts[k..] == ts;
    Halves(Run(s, k).0, Run(r, |ts| - k).0, ts[..k], ts[k..]);
    assert Run(r, |ts| - k).0[0] == Next(r).0 && ts[k..][0] == ts[k];
    RunSplit(s, k, 1);
    assert Run(Next(r).1, 0) == ([], Next(r).1) && [Next(r).0] + [] == [Next(r).0];
    assert ts[..k] + [ts[k]] == ts[..k + 1];
    DeepestGrows(s, k + 1, |ts|);
  }

  // ----- printed text can be given to the parser -----

  lemma {:induction false} EscapeNoNul(s: string)
    requires NIL !in s
    ensures NIL !in Escape(s)
  {
    if s != "" {
      EscapeNoNul(s[1..]);
    }
  }

  /** A printed tree holds no NUL, and a container ends with its bracket. */
  lemma {:induction false} RenderNoNul(v: Json)
    ensures NIL !in Render(v)
    ensures v.Node? ==> Render(v)[|Render(v)| - 1] == Close(v)
    decreases v, if v.Node? then 2 * |v.members| + 3 else 0
  {
    match v {
      case Text(s) => EscapeNoNul(s);
      case Number(n) => DecimalNoNul(n);
      case Node(_, _) => RenderFromNoNul(v, 0);
    }
  }

  lemma DecimalNoNul(n: int)
    ensures NIL !in Decimal(n)
  {
    var d := Digits(if n < 0 then -n else n);
    forall i | 0 <= i < |d| ensures d[i] != NIL {
      assert '0' <= d[i] <= '9';
    }
  }

  lemma {:induction false} RenderFromNoNul(v: Json, i: nat)
    requires v.Node? && i <= |v.members|
    ensures NIL !in RenderFrom(v, i)
    ensures RenderFrom(v, i) != "" && RenderFrom(v, i)[|RenderFrom(v, i)| - 1] == Close(v)
    decreases v, |v.members| - i + 1
  {
    if i < |v.members| {
      EscapeNoNul(v.members[i].name);
      RenderNoNul(v.members[i].value);
      RenderFromNoNul(v, i + 1);
    }
  }
}
