/** The JSON parser as a machine on the text that is left: one token per step, with a
    stack of open containers and pairs. */
module JsonMachine {
  import opened JsonTree

  datatype Error = OK | SYNTAX | UNEXPECTED_ARRAY | UNEXPECTED_END_OF_ARRAY | UNEXPECTED_STRING

  /** A token; the kind is NUL where the parser returns 0. */
  datatype Token = Token(kind: char, slice: string)

  const NIL: char := '\0'
  const NAME: char := 'N'
  const STRING: char := '\"'
  const NUMBER: char := '0'

  /** `deepest` is the largest size that the stack has had. */
  datatype State = State(text: string, stack: string, vtype: char, error: Error, deepest: nat)

  function SkipWs(t: string): string {
    if t != "" && (t[0] == ' ' || t[0] == '\n') then SkipWs(t[1..]) else t
  }

  /** How far the loop of `atomic` for strings goes: to a quote that is not escaped. */
  function StringLength(t: string): (n: nat)
    ensures n <= |t|
  {
    if t == "" || t[0] == '\"' || t[0] == NIL then 0
    else if t[0] == '\\' then (if |t| == 1 then 1 else 2 + StringLength(t[2..]))
    else 1 + StringLength(t[1..])
  }

  predicate InNumber(c: char) {
    ('0' <= c <= '9') || c == '.'
  }

  function NumberLength(t: string): (n: nat)
    ensures n <= |t|
  {
    if t != "" && InNumber(t[0]) then 1 + NumberLength(t[1..]) else 0
  }

  function Top(stack: string): char {
    if stack == "" then NIL else stack[|stack| - 1]
  }

  function Push(s: State, c: char): State {
    s.(stack := s.stack + [c], vtype := NIL, deepest := Max(s.deepest, |s.stack| + 1))
  }

  function Pop(s: State): State {
    if s.stack == "" then s else s.(stack := s.stack[..|s.stack| - 1])
  }

  function Fail(s: State, e: Error): (Token, State) {
    (Token(NIL, ""), s.(error := e))
  }

  /** `atomic`; `s.text` is what follows the first character `c`. */
  function Atomic(s: State, kind: char, c: char): (Token, State) {
    if kind == NUMBER then
      var n := NumberLength(s.text);
      (Token(kind, [c] + s.text[..n]), s.(text := s.text[n..], vtype := kind))
    else
      var n := StringLength(s.text);
      (Token(kind, s.text[..n]), s.(text := if n < |s.text| then s.text[n + 1..] else "", vtype := kind))
  }

  /** A pair whose value has been read is closed. */
  function ClosePair(s: State): State {
    if Top(s.stack) == ':' && s.vtype != NIL then Pop(s) else s
  }

  /** `jsonparse_next` */
  function Next(s: State): (Token, State) {
    var t := SkipWs(s.text);
    if t == "" then (Token(NIL, ""), s.(text := "")) else Dispatch(s.(text := t[1..]), t[0])
  }

  /** The `switch` on the first character. */
  function Dispatch(s: State, c: char): (Token, State) {
    var top := Top(s.stack);
    var inside := top == '{' || top == '[' || top == ':';
    if c == '{' || c == ':' then (Token(c, ""), Push(s, c))
    else if c == '}' then
      if Top(ClosePair(s).stack) == '{' then (Token(c, ""), Pop(ClosePair(s))) else Fail(ClosePair(s), SYNTAX)
    else if c == ']' then
      if top == '[' then (Token(c, ""), Pop(s)) else Fail(s, UNEXPECTED_END_OF_ARRAY)
    else if c == ',' then
      if top == ':' && s.vtype != NIL then (Token(c, ""), Pop(s))
      else if top == '[' then (Token(c, ""), s) else Fail(s, SYNTAX)
    else if c == '\"' then
      if inside then Atomic(s, if top == '{' then NAME else STRING, c) else Fail(s, UNEXPECTED_STRING)
    else if c == '[' then
      if inside then (Token(c, ""), Push(s, c)) else Fail(s, UNEXPECTED_ARRAY)
    else if (top == ':' || top == '[') && '0' <= c <= '9' then Atomic(s, NUMBER, c)
    else (Token(NIL, ""), s)
  }

  function Run(s: State, n: nat): (seq<Token>, State)
    decreases n
  {
    if n == 0 then ([], s) else
    var (t, s1) := Next(s);
    var (ts, s2) := Run(s1, n - 1);
    ([t] + ts, s2)
  }

  lemma {:induction false} RunSplit(s: State, a: nat, b: nat)
    ensures |Run(s, a).0| == a
    ensures Run(s, a + b) == (Run(s, a).0 + Run(Run(s, a).1, b).0, Run(Run(s, a).1, b).1)
    decreases a
  {
    if a > 0 {
      var (t, s1) := Next(s);
      RunSplit(s1, a - 1, b);
      assert Run(s, a).0 == [t] + Run(s1, a - 1).0 && Run(s, a).1 == Run(s1, a - 1).1;
      assert Run(s, a + b) == ([t] + Run(s1, a - 1 + b).0, Run(s1, a - 1 + b).1);
      var x, y := Run(s1, a - 1).0, Run(Run(s1, a - 1).1, b).0;
      assert [t] + (x + y) == [t] + x + y;
    } else {
      assert Run(s, 0) == ([], s) && [] + Run(s, b).0 == Run(s, b).0;
    }
  }

  // ----- the tokens of a tree -----

  /** The tokens of a tree, in pre-order, with the slices of names and values. */
  function Tokens(v: Json): (ts: seq<Token>)
    ensures |ts| > 0
    decreases v, if v.Node? then |v.members| + 2 else 0
  {
    match v
    case Text(s) => [Token(STRING, Escape(s))]
    case Number(n) => [Token(NUMBER, Decimal(n))]
    case Node(_, _) => [Token(Open(v), "")] + TokensFrom(v, 0)
  }

  function TokensFrom(v: Json, i: nat): seq<Token>
    requires v.Node? && i <= |v.members|
    decreases v, |v.members| - i + 1
  {
    if i == |v.members| then [Token(Close(v), "")]
    else HeadTokens(v, i) + Tokens(v.members[i].value) + TokensFrom(v, i + 1)
  }

  function HeadTokens(v: Json, i: nat): seq<Token>
    requires v.Node? && i < |v.members|
  {
    (if i > 0 then [Token(',', "")] else []) +
    (if v.named then [Token(NAME, Escape(v.members[i].name)), Token(':', "")] else [])
  }

  /** The type of the value read last when the tree has been read. */
  function LastType(v: Json): char {
    match v
    case Text(_) => STRING
    case Number(_) => NUMBER
    case Node(_, members) => if members == [] then NIL else LastType(members[|members| - 1].value)
  }

  /** The stack that reading a tree takes. */
  function Need(v: Json): nat
    decreases v, if v.Node? then |v.members| + 2 else 0
  {
    if v.Node? then 1 + NeedFrom(v, 0) else 0
  }

  function NeedFrom(v: Json, i: nat): nat
    requires v.Node? && i <= |v.members|
    decreases v, |v.members| - i + 1
  {
    if i == |v.members| then 0
    else Max((if v.named then 1 else 0) + Need(v.members[i].value), NeedFrom(v, i + 1))
  }

  /** No backslash escapes a quote or the end of the string: backslashes come in pairs there. */
  predicate Clean(s: string) {
    if s == "" then true
    else if s[0] == '\\' then |s| >= 2 && s[1] != '\"' && Clean(s[2..])
    else Clean(s[1..])
  }

  /** A tree that is read back. */
  predicate Fine(v: Json)
    decreases v, if v.Node? then |v.members| + 2 else 0
  {
    match v
    case Text(s) => Clean(s)
    case Number(n) => n >= 0
    case Node(_, _) => FineFrom(v, 0)
  }

  predicate FineFrom(v: Json, i: nat)
    requires v.Node? && i <= |v.members|
    decreases v, |v.members| - i + 1
  {
    i < |v.members| ==>
      && (v.named ==> Clean(v.members[i].name) && LastType(v.members[i].value) != NIL)
      && Fine(v.members[i].value) && FineFrom(v, i + 1)
  }
}
