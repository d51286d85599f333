/** White space in JSON text: the parser reads the same tokens whatever stands between them, and skips
    nothing else. */
module JsonSpacing {
  import opened Common
  import opened JsonTree
  import opened JsonMachine
  import opened JsonRoundTrip

  predicate White(w: string) {
    forall i :: 0 <= i < |w| ==> w[i] == ' ' || w[i] == '\n'
  }

  // ----- in front of a token -----

  lemma {:induction false} SkipWhite(w: string, text: string)
    requires White(w)
    ensures SkipWs(w + text) == SkipWs(text)
  {
    if w != "" {
      assert (w + text)[1..] == w[1..] + text;
      SkipWhite(w[1..], text);
    } else {
      assert w + text == text;
    }
  }

  /** White space in front of a token does not matter. */
  lemma WhiteInFront(s: State, w: string)
    requires White(w)
    ensures Next(s.(text := w + s.text)) == Next(s)
  {
    SkipWhite(w, s.text);
  }

  /** Only white space is skipped, and all of it. */
  lemma {:induction false} SkippedIsWhite(text: string) returns (n: nat)
    ensures n <= |text| && White(text[..n]) && SkipWs(text) == text[n..]
    ensures n < |text| ==> text[n] != ' ' && text[n] != '\n'
  {
    if text != "" && (text[0] == ' ' || text[0] == '\n') {
      var m := SkippedIsWhite(text[1..]);
      n := m + 1;
      assert text[..n] == [text[0]] + text[1..][..m];
    } else {
      n := 0;
    }
  }

  // ----- tokens as they are spelled -----

  function Spelled(t: Token): string {
    if t.kind == NAME || t.kind == STRING then "\"" + t.slice + "\""
    else if t.kind == NUMBER then t.slice
    else [t.kind]
  }

  /** Digits and points behind a digit. */
  predicate Unsigned(d: string) {
    d != "" && '0' <= d[0] <= '9' && forall i :: 0 <= i < |d| ==> ('0' <= d[i] <= '9') || d[i] == '.'
  }

  /** A token that can be spelled. */
  predicate Lexeme(t: Token) {
    if t.kind == NAME || t.kind == STRING then true
    else if t.kind == NUMBER then Unsigned(t.slice) || (t.slice != "" && t.slice[0] == '-')
    else t.kind in "{}[]:," && t.slice == ""
  }

  /** A token that can follow a number. */
  predicate Parts(t: Token) {
    t.kind == ',' || t.kind == ']' || t.kind == '}'
  }

  /** The numbers in a list of tokens are kept apart from what follows. */
  predicate Apart(ts: seq<Token>) {
    forall k :: 0 <= k < |ts| - 1 && ts[k].kind == NUMBER ==> Parts(ts[k + 1])
  }

  predicate Lexemes(ts: seq<Token>) {
    forall k :: 0 <= k < |ts| ==> Lexeme(ts[k])
  }

  predicate AllWhite(ws: seq<string>) {
    forall k :: 0 <= k < |ws| ==> White(ws[k])
  }

  /** The tokens in turn, with `ws[k]` in front of token `k`, and `rest` behind them all. */
  function Spaced(ts: seq<Token>, ws: seq<string>, rest: string): string
    requires |ws| == |ts|
  {
    if ts == [] then rest else ws[0] + (Spelled(ts[0]) + Spaced(ts[1..], ws[1..], rest))
  }

  // ----- one token -----

  /** Where a string ends does not depend on what follows its quote. */
  lemma {:induction false} StringEnds(b: string, rest: string)
    ensures StringLength(b + "\"" + rest) == |b| <==> StringLength(b + "\"") == |b|
    decreases |b|
  {
    var t, u := b + "\"" + rest, b + "\"";
    if b != "" && b[0] != '\"' && b[0] != NIL {
      if b[0] == '\\' {
        if |b| >= 2 {
          assert t[2..] == b[2..] + "\"" + rest && u[2..] == b[2..] + "\"";
          StringEnds(b[2..], rest);
        } else {
          assert t[0] == u[0] == '\\' && |u| == 2;
        }
      } else {
        assert t[1..] == b[1..] + "\"" + rest && u[1..] == b[1..] + "\"";
        StringEnds(b[1..], rest);
      }
    } else {
      assert b != "" ==> t[0] == u[0] == b[0];
      assert b == "" ==> t[0] == u[0] == '\"';
    }
  }

  lemma {:induction false} NumberEnds(d: string, rest: string)
    requires (forall i :: 0 <= i < |d| ==> InNumber(d[i])) && Stops(rest)
    ensures NumberLength(d + rest) == |d|
  {
    if d != "" {
      assert (d + rest)[1..] == d[1..] + rest;
      NumberEnds(d[1..], rest);
    } else {
      assert d + rest == rest;
    }
  }

  /** The next token is `t`, which has been read up to `rest`. */
  predicate Gives(s: State, t: Token, rest: string) {
    Next(s).0 == t && Next(s).1.text == rest
  }

  /** The machine on two texts that begin with the same token: either both give it, and then the two
      states differ in their texts only, or none does. */
  predicate Alike(s: State, u: State, t: Token, rest: string, other: string) {
    && (Next(s).0 == t <==> Next(u).0 == t)
    && (Next(s).0 == t ==> Next(s).1.text == rest && Next(u).1 == Next(s).1.(text := other))
  }

  lemma StringAlike(s: State, t: Token, rest: string, other: string)
    requires t.kind == NAME || t.kind == STRING
    ensures Alike(s.(text := Spelled(t) + rest), s.(text := Spelled(t) + other), t, rest, other)
  {
    var b := t.slice;
    AtomicString(s, t, rest);
    AtomicString(s, t, other);
    StringEnds(b, rest);
    StringEnds(b, other);
  }

  lemma AtomicString(s: State, t: Token, rest: string)
    requires t.kind == NAME || t.kind == STRING
    ensures var n := Next(s.(text := Spelled(t) + rest));
            var top := Top(s.stack);
            && (n.0 == t <==>
                  && StringLength(t.slice + "\"" + rest) == |t.slice| && (top == '{' || top == '[' || top == ':')
                  && t.kind == if top == '{' then NAME else STRING)
            && (n.0 == t ==> n.1 == s.(text := rest, vtype := t.kind))
  {
    var after := t.slice + "\"" + rest;
    assert Spelled(t) + rest == "\"" + after && ("\"" + after)[1..] == after;
    var n := StringLength(after);
    assert |after[..n]| == n;
    assert n == |t.slice| ==> after[..n] == t.slice && after[n + 1..] == rest;
  }

  lemma NumberAlike(s: State, t: Token, rest: string, other: string)
    requires t.kind == NUMBER && Lexeme(t) && Stops(rest) && Stops(other)
    ensures Alike(s.(text := Spelled(t) + rest), s.(text := Spelled(t) + other), t, rest, other)
  {
    NumberRead(s, t, rest);
    NumberRead(s, t, other);
  }

  lemma NumberRead(s: State, t: Token, rest: string)
    requires t.kind == NUMBER && Lexeme(t) && Stops(rest)
    ensures var n := Next(s.(text := Spelled(t) + rest));
            && (n.0 == t <==> Unsigned(t.slice) && (Top(s.stack) == '[' || Top(s.stack) == ':'))
            && (n.0 == t ==> n.1 == s.(text := rest, vtype := NUMBER))
  {
    var d := t.slice;
    var text := d + rest;
    assert SkipWs(text) == text && text[0] == d[0] && text[1..] == d[1..] + rest;
    if Unsigned(d) {
      NumberEnds(d[1..], rest);
      assert text[1..][..|d| - 1] == d[1..] && text[1..][|d| - 1..] == rest && [d[0]] + d[1..] == d;
    }
  }

  lemma MarkAlike(s: State, t: Token, rest: string, other: string)
    requires Lexeme(t) && t.kind != NAME && t.kind != STRING && t.kind != NUMBER
    ensures Alike(s.(text := Spelled(t) + rest), s.(text := Spelled(t) + other), t, rest, other)
  {
    var c := t.kind;
    assert ([c] + rest)[1..] == rest && ([c] + other)[1..] == other;
    assert c in "{}[]:,";
  }

  /** White space in front of a token, and what follows it, do not change how it is read. */
  lemma TokenAlike(s: State, u: State, t: Token, w: string, x: string, rest: string, other: string)
    requires u == s.(text := u.text) && White(w) && White(x) && Lexeme(t)
    requires s.text == w + (Spelled(t) + rest) && u.text == x + (Spelled(t) + other)
    requires t.kind == NUMBER ==> Stops(rest) && Stops(other)
    ensures Alike(s, u, t, rest, other)
  {
    var s1, u1 := s.(text := Spelled(t) + rest), s.(text := Spelled(t) + other);
    WhiteInFront(s1, w);
    WhiteInFront(u1, x);
    assert s1.(text := w + s1.text) == s && u1.(text := x + u1.text) == u;
    if t.kind == NAME || t.kind == STRING {
      StringAlike(s, t, rest, other);
    } else if t.kind == NUMBER {
      NumberAlike(s, t, rest, other);
    } else {
      MarkAlike(s, t, rest, other);
    }
  }

  // ----- all tokens -----

  lemma SpacedStops(ts: seq<Token>, ws: seq<string>, rest: string)
    requires |ws| == |ts| && AllWhite(ws) && Lexemes(ts) && Stops(rest) && (ts != [] ==> Parts(ts[0]))
    ensures Stops(Spaced(ts, ws, rest))
  {
    if ts != [] && ws[0] != "" {
      assert Spaced(ts, ws, rest)[0] == ws[0][0];
    }
  }

  lemma RunFirst(s: State, n: nat)
    ensures Run(s, n + 1) == ([Next(s).0] + Run(Next(s).1, n).0, Run(Next(s).1, n).1)
  {
  }

  lemma SameHead(a: Token, x: seq<Token>, ts: seq<Token>)
    requires ts != []
    ensures [a] + x == ts <==> a == ts[0] && x == ts[1..]
  {
    if [a] + x == ts {
      assert ts[1..] == ([a] + x)[1..] == x && ts[0] == ([a] + x)[0];
    }
  }

  /** Whether the tokens are read does not depend on the white space between them. */
  lemma {:induction false} SpacingIrrelevant(s: State, u: State, ts: seq<Token>, ws: seq<string>, xs: seq<string>,
                                             rest: string, other: string)
    requires |ws| == |xs| == |ts| && AllWhite(ws) && AllWhite(xs) && Lexemes(ts) && Apart(ts)
    requires u == s.(text := u.text) && s.text == Spaced(ts, ws, rest) && u.text == Spaced(ts, xs, other)
    requires Stops(rest) && Stops(other)
    ensures Run(s, |ts|).0 == ts <==> Run(u, |ts|).0 == ts
    ensures Run(s, |ts|).0 == ts ==> Run(s, |ts|).1.text == rest
                                     && Run(u, |ts|).1 == Run(s, |ts|).1.(text := other)
    decreases |ts|
  {
    if ts == [] {
      assert Run(s, 0) == ([], s) && Run(u, 0) == ([], u);
    } else {
      var n, behind, beyond := |ts| - 1, Spaced(ts[1..], ws[1..], rest), Spaced(ts[1..], xs[1..], other);
      assert Apart(ts[1..]) by {
        assert forall k :: 0 <= k < |ts[1..]| ==> ts[1..][k] == ts[k + 1];
      }
      if ts[0].kind == NUMBER {
        SpacedStops(ts[1..], ws[1..], rest);
        SpacedStops(ts[1..], xs[1..], other);
      }
      TokenAlike(s, u, ts[0], ws[0], xs[0], behind, beyond);
      RunFirst(s, n);
      RunFirst(u, n);
      SameHead(Next(s).0, Run(Next(s).1, n).0, ts);
      SameHead(Next(u).0, Run(Next(u).1, n).0, ts);
      if Next(s).0 == ts[0] {
        SpacingIrrelevant(Next(s).1, Next(u).1, ts[1..], ws[1..], xs[1..], rest, other);
      }
    }
  }

  // ----- the tokens of a tree -----

  lemma ApartJoin(a: seq<Token>, b: seq<Token>)
    requires Apart(a) && Apart(b) && Lexemes(a) && Lexemes(b)
    requires a != [] && b != [] ==> Parts(b[0]) || a[|a| - 1].kind != NUMBER
    ensures Apart(a + b) && Lexemes(a + b)
  {
    var c := a + b;
    forall k | 0 <= k < |c| - 1 && c[k].kind == NUMBER ensures Parts(c[k + 1]) {
      if k >= |a| {
        assert c[k] == b[k - |a|] && c[k + 1] == b[k - |a| + 1];
      }
    }
  }

  lemma HeadApart(v: Json, i: nat)
    requires v.Node? && i < |v.members|
    ensures var h := HeadTokens(v, i);
            && Lexemes(h) && Apart(h) && (h != [] ==> h[|h| - 1].kind != NUMBER)
            && (i > 0 ==> h != [] && Parts(h[0]))
  {
  }

  lemma DecimalLexeme(n: CInt)
    ensures Lexeme(Token(NUMBER, Decimal(n)))
  {
    assert n >= 0 ==> forall i :: 0 <= i < |Digits(n)| ==> '0' <= Digits(n)[i] <= '9';
  }

  lemma {:induction false} TokensApart(v: Json)
    ensures Lexemes(Tokens(v)) && Apart(Tokens(v))
    decreases v, if v.Node? then |v.members| + 2 else 0
  {
    match v {
      case Text(s) =>
      case Number(n) => DecimalLexeme(n);
      case Node(_, _) =>
        TokensFromApart(v, 0);
        ApartJoin([Token(Open(v), "")], TokensFrom(v, 0));
    }
  }

  lemma {:induction false} TokensFromApart(v: Json, i: nat)
    requires v.Node? && i <= |v.members|
    ensures var ts := TokensFrom(v, i);
            Lexemes(ts) && Apart(ts) && ts != [] && (i > 0 || v.members == [] ==> Parts(ts[0]))
    decreases v, |v.members| - i + 1
  {
    if i < |v.members| {
      var value := v.members[i].value;
      HeadApart(v, i);
      TokensApart(value);
      TokensFromApart(v, i + 1);
      ApartJoin(HeadTokens(v, i), Tokens(value));
      ApartJoin(HeadTokens(v, i) + Tokens(value), TokensFrom(v, i + 1));
    }
  }

  // ----- the printed text is one way to space the tokens -----

  /** What the printer puts in front of each token, with `lead` before the first one. */
  function Gaps(v: Json, lead: string): (ws: seq<string>)
    ensures |ws| == |Tokens(v)|
    decreases v, if v.Node? then |v.members| + 2 else 0
  {
    if v.Node? then [lead] + GapsFrom(v, 0, "\n") else [lead]
  }

  function GapsFrom(v: Json, i: nat, lead: string): (ws: seq<string>)
    requires v.Node? && i <= |v.members|
    ensures |ws| == |TokensFrom(v, i)|
    decreases v, |v.members| - i + 1
  {
    if i == |v.members| then [lead + "\n"] else
    var value := v.members[i].value;
    HeadGaps(v, i, lead) + Gaps(value, ValueLead(v, i, lead)) + GapsFrom(v, i + 1, "")
  }

  function HeadGaps(v: Json, i: nat, lead: string): (ws: seq<string>)
    requires v.Node? && i < |v.members|
    ensures |ws| == |HeadTokens(v, i)|
  {
    (if i > 0 then [lead] else []) + if v.named then [if i > 0 then "\n" else lead, ""] else []
  }

  function ValueLead(v: Json, i: nat, lead: string): string
    requires v.Node? && i < |v.members|
  {
    if v.named then "" else if i > 0 then "\n" else lead
  }

  lemma {:induction false} GapsWhite(v: Json, lead: string)
    requires White(lead)
    ensures AllWhite(Gaps(v, lead))
    decreases v, if v.Node? then |v.members| + 2 else 0
  {
    if v.Node? {
      GapsFromWhite(v, 0, "\n");
    }
  }

  lemma {:induction false} GapsFromWhite(v: Json, i: nat, lead: string)
    requires v.Node? && i <= |v.members| && White(lead)
    ensures AllWhite(GapsFrom(v, i, lead))
    decreases v, |v.members| - i + 1
  {
    if i < |v.members| {
      GapsWhite(v.members[i].value, ValueLead(v, i, lead));
      GapsFromWhite(v, i + 1, "");
    }
  }

  lemma {:induction false} SpacedJoin(a: seq<Token>, x: seq<string>, b: seq<Token>, y: seq<string>, rest: string)
    requires |x| == |a| && |y| == |b|
    ensures Spaced(a + b, x + y, rest) == Spaced(a, x, Spaced(b, y, rest))
  {
    if a == [] {
      assert a + b == b && x + y == y;
    } else {
      assert (a + b)[1..] == a[1..] + b && (x + y)[1..] == x[1..] + y;
      SpacedJoin(a[1..], x[1..], b, y, rest);
    }
  }

  lemma SpacedOne(t: Token, w: string, rest: string)
    ensures Spaced([t], [w], rest) == w + (Spelled(t) + rest)
  {
    assert [t][1..] == [] && [w][1..] == [];
  }

  lemma {:induction false} RenderSpaced(v: Json, lead: string, rest: string)
    ensures lead + (Render(v) + rest) == Spaced(Tokens(v), Gaps(v, lead), rest)
    decreases v, if v.Node? then |v.members| + 2 else 0
  {
    match v {
      case Text(s) => SpacedOne(Token(STRING, Escape(s)), lead, rest);
      case Number(n) => SpacedOne(Token(NUMBER, Decimal(n)), lead, rest);
      case Node(_, _) =>
        RenderFromSpaced(v, 0, "\n", rest);
        NodeSpaced(v, lead, rest, RenderFrom(v, 0) + rest);
    }
  }

  lemma NodeSpaced(v: Json, lead: string, rest: string, inner: string)
    requires v.Node? && inner == RenderFrom(v, 0) + rest
    requires "\n" + inner == Spaced(TokensFrom(v, 0), GapsFrom(v, 0, "\n"), rest)
    ensures lead + (Render(v) + rest) == Spaced(Tokens(v), Gaps(v, lead), rest)
  {
    var open := Token(Open(v), "");
    SpacedJoin([open], [lead], TokensFrom(v, 0), GapsFrom(v, 0, "\n"), rest);
    SpacedOne(open, lead, "\n" + inner);
    Assoc([Open(v)] + "\n", RenderFrom(v, 0), rest);
    Assoc([Open(v)], "\n", inner);
  }

  lemma PairSpaced(name: CString, gap: string, rest: string)
    ensures Spaced([Token(NAME, Escape(name)), Token(':', "")], [gap, ""], rest) == gap + (Quote(name) + ":" + rest)
  {
    var first, colon := Token(NAME, Escape(name)), Token(':', "");
    SpacedJoin([first], [gap], [colon], [""], rest);
    SpacedOne(colon, "", rest);
    SpacedOne(first, gap, [':'] + rest);
    assert "" + ([':'] + rest) == [':'] + rest;
    assert [first] + [colon] == [first, colon] && [gap] + [""] == [gap, ""];
    Assoc(Quote(name), ":", rest);
  }

  /** The name of a member and its colon, if it has one. */
  function NamePart(v: Json, i: nat): string
    requires v.Node? && i < |v.members|
  {
    if v.named then Quote(v.members[i].name) + ":" else ""
  }

  lemma NameSpaced(v: Json, i: nat, gap: string, rest: string)
    requires v.Node? && i < |v.members|
    ensures Spaced(NameTokens(v, i), if v.named then [gap, ""] else [], (if v.named then "" else gap) + rest)
            == gap + (NamePart(v, i) + rest)
  {
    if v.named {
      assert "" + rest == rest;
      PairSpaced(v.members[i].name, gap, rest);
    } else {
      assert "" + rest == rest;
    }
  }

  lemma HeadSpaced(v: Json, i: nat, lead: string, rest: string)
    requires v.Node? && i < |v.members|
    ensures lead + (Head(v, i) + rest) == Spaced(HeadTokens(v, i), HeadGaps(v, i, lead), ValueLead(v, i, lead) + rest)
  {
    var gap := if i > 0 then "\n" else lead;
    var names, gaps := NameTokens(v, i), if v.named then [gap, ""] else [];
    var end := ValueLead(v, i, lead) + rest;
    NameSpaced(v, i, gap, rest);
    if i > 0 {
      SpacedJoin([Token(',', "")], [lead], names, gaps, end);
      SpacedOne(Token(',', ""), lead, "\n" + (NamePart(v, i) + rest));
      CommaText(NamePart(v, i), rest);
    } else {
      assert [] + names == names && [] + gaps == gaps && "" + NamePart(v, i) == NamePart(v, i);
    }
  }

  lemma CommaText(name: string, rest: string)
    ensures [','] + ("\n" + (name + rest)) == ",\n" + name + rest
  {
  }

  lemma {:induction false} RenderFromSpaced(v: Json, i: nat, lead: string, rest: string)
    requires v.Node? && i <= |v.members|
    ensures lead + (RenderFrom(v, i) + rest) == Spaced(TokensFrom(v, i), GapsFrom(v, i, lead), rest)
    decreases v, |v.members| - i + 1
  {
    if i == |v.members| {
      EndSpaced(v, lead, rest);
    } else {
      var behind := RenderFrom(v, i + 1) + rest;
      RenderFromSpaced(v, i + 1, "", rest);
      assert "" + behind == behind;
      RenderSpaced(v.members[i].value, ValueLead(v, i, lead), behind);
      OneMemberSpaced(v, i, lead, rest, behind);
    }
  }

  lemma EndSpaced(v: Json, lead: string, rest: string)
    requires v.Node?
    ensures var n := |v.members|;
            lead + (RenderFrom(v, n) + rest) == Spaced(TokensFrom(v, n), GapsFrom(v, n, lead), rest)
  {
    SpacedOne(Token(Close(v), ""), lead + "\n", rest);
    assert lead + ("\n" + [Close(v)] + rest) == lead + "\n" + ([Close(v)] + rest);
  }

  lemma OneMemberSpaced(v: Json, i: nat, lead: string, rest: string, behind: string)
    requires v.Node? && i < |v.members| && behind == RenderFrom(v, i + 1) + rest
    requires behind == Spaced(TokensFrom(v, i + 1), GapsFrom(v, i + 1, ""), rest)
    requires var value, first := v.members[i].value, ValueLead(v, i, lead);
             first + (Render(value) + behind) == Spaced(Tokens(value), Gaps(value, first), behind)
    ensures lead + (RenderFrom(v, i) + rest) == Spaced(TokensFrom(v, i), GapsFrom(v, i, lead), rest)
  {
    HeadSpaced(v, i, lead, Render(v.members[i].value) + behind);
    MemberSpaced(v, i, lead, rest);
    MemberRendered(v, i, rest);
  }

  lemma MemberRendered(v: Json, i: nat, rest: string)
    requires v.Node? && i < |v.members|
    ensures RenderFrom(v, i) + rest == Head(v, i) + (Render(v.members[i].value) + (RenderFrom(v, i + 1) + rest))
  {
    Assoc(Head(v, i) + Render(v.members[i].value), RenderFrom(v, i + 1), rest);
    Assoc(Head(v, i), Render(v.members[i].value), RenderFrom(v, i + 1) + rest);
  }

  lemma MemberSpaced(v: Json, i: nat, lead: string, rest: string)
    requires v.Node? && i < |v.members|
    ensures Spaced(TokensFrom(v, i), GapsFrom(v, i, lead), rest)
            == Spaced(HeadTokens(v, i), HeadGaps(v, i, lead),
                      Spaced(Tokens(v.members[i].value), Gaps(v.members[i].value, ValueLead(v, i, lead)),
                             Spaced(TokensFrom(v, i + 1), GapsFrom(v, i + 1, ""), rest)))
  {
    var a, x := HeadTokens(v, i), HeadGaps(v, i, lead);
    var b, y := Tokens(v.members[i].value), Gaps(v.members[i].value, ValueLead(v, i, lead));
    var c, z := TokensFrom(v, i + 1), GapsFrom(v, i + 1, "");
    SpacedJoin(a + b, x + y, c, z, rest);
    SpacedJoin(a, x, b, y, Spaced(c, z, rest));
  }

  /** Parsing the tokens of a tree with any white space between them and behind them yields exactly
      these tokens if and only if the root is an object and the tree is fine. The printed text is one such text. */
  lemma SpacedRoundTripIff(v: Json, ws: seq<string>, rest: string, vtype: char)
    requires |ws| == |Tokens(v)| && AllWhite(ws) && White(rest)
    ensures Reads(Start(Spaced(Tokens(v), ws, rest), vtype), Tokens(v), v.Node? && v.named && Fine(v),
                  State(rest, "", LastType(v), OK, Need(v)))
    ensures Render(v) == Spaced(Tokens(v), Gaps(v, ""), "") && AllWhite(Gaps(v, ""))
  {
    RoundTripIff(v, vtype);
    RenderSpaced(v, "", "");
    assert "" + (Render(v) + "") == Render(v);
    GapsWhite(v, "");
    TokensApart(v);
    SpacingIrrelevant(Start(Render(v), vtype), Start(Spaced(Tokens(v), ws, rest), vtype), Tokens(v), Gaps(v, ""), ws,
                      "", rest);
  }

  // ----- what is refused -----

  /** Which error a token raises, by the character that it begins with and what is open. */
  lemma Refusals(s: State)
    requires s.error == OK && SkipWs(s.text) != ""
    ensures var c, top := SkipWs(s.text)[0], Top(s.stack);
            var within := if s.stack == "" then NIL else Top(s.stack[..|s.stack| - 1]);
            Next(s).1.error ==
            if c == '}' && top != '{' && !(top == ':' && s.vtype != NIL && within == '{') then SYNTAX
            else if c == ',' && top != '[' && !(top == ':' && s.vtype != NIL) then SYNTAX
            else if c == ']' && top != '[' then UNEXPECTED_END_OF_ARRAY
            else if c == '[' && top != '{' && top != '[' && top != ':' then UNEXPECTED_ARRAY
            else if c == '\"' && top != '{' && top != '[' && top != ':' then UNEXPECTED_STRING
            else OK
  {
  }
}
