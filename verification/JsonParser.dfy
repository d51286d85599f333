/** The JSON parser: positions in a text, a stack in an array, one token per call. */
module JsonParser {
  import opened JsonTree
  import opened JsonMachine
  import opened JsonRoundTrip
  import opened JsonSpacing

  const JSONPARSE_MAX_DEPTH: nat := 10

  class Parser {
    const json: CString
    var pos: nat
    var depth: nat
    var vstart: nat
    var vlen: nat
    var vtype: char
    var error: Error
    const stack: array<char>
    /** The largest depth so far. */
    ghost var deepest: nat

    /** The text does not end with a backslash: `atomic` would read beyond its end. */
    ghost predicate Valid()
      reads this
    {
      && stack.Length == JSONPARSE_MAX_DEPTH && depth <= JSONPARSE_MAX_DEPTH
      && (json != "" ==> json[|json| - 1] != '\\')
    }

    function Left(): string
      reads this`pos
    {
      if pos <= |json| then json[pos..] else ""
    }

    ghost function Machine(): State
      requires Valid()
      reads this, stack
    {
      State(Left(), stack[..depth], vtype, error, deepest)
    }

    /** `jsonparse_setup`; the type field is not set. */
    constructor (json: CString, vtype: char)
      requires json != "" ==> json[|json| - 1] != '\\'
      ensures Valid() && Machine() == Start(json, vtype) && this.json == json && fresh(stack)
    {
      this.json, this.vtype := json, vtype;
      pos, depth, vstart, vlen, error, deepest := 0, 0, 0, 0, OK, 0;
      stack := new char[JSONPARSE_MAX_DEPTH](i => NIL);
    }

    /** The character at a position; the text ends with a NUL. */
    function At(i: nat): char {
      if i < |json| then json[i] else NIL
    }

    method PushChar(c: char)
      requires Valid() && depth < JSONPARSE_MAX_DEPTH
      modifies this`depth, this`vtype, this`deepest, stack
      ensures Valid() && Machine() == Push(old(Machine()), c)
    {
      stack[depth] := c;
      depth := depth + 1;
      vtype := NIL;
      deepest := Max(deepest, depth);
    }

    method PopChar()
      requires Valid()
      modifies this`depth
      ensures Valid() && Machine() == Pop(old(Machine()))
    {
      if depth > 0 {
        assert stack[..depth][..depth - 1] == stack[..depth - 1];
        depth := depth - 1;
      }
    }

    /** `jsonparse_get_type` */
    method GetType() returns (c: char)
      requires Valid()
      ensures c == Top(Machine().stack)
    {
      c := if depth == 0 then NIL else stack[depth - 1];
    }

    method SkipSpace()
      requires Valid()
      modifies this`pos
      ensures Valid() && Left() == SkipWs(old(Left())) && (old(pos) <= |json| ==> pos <= |json|)
    {
      while pos < |json| && (json[pos] == ' ' || json[pos] == '\n')
        invariant SkipWs(Left()) == SkipWs(old(Left()))
        invariant old(pos) <= |json| ==> pos <= |json|
      {
        assert Left()[0] == json[pos] && Left()[1..] == json[pos + 1..];
        pos := pos + 1;
      }
      assert pos < |json| ==> Left()[0] == json[pos];
    }

    /** The loop of `atomic` for strings and names. */
    method ScanString()
      requires Valid() && pos <= |json|
      modifies this`pos
      ensures Valid() && pos == old(pos) + StringLength(old(Left())) + 1
    {
      var c := At(pos);
      pos := pos + 1;
      while c != NIL && c != '\"'
        invariant 0 < pos <= |json| + 1 && c == At(pos - 1)
        invariant StringEnd(pos - 1) == StringEnd(old(pos))
        decreases |json| + 1 - pos
      {
        if c == '\\' {
          pos := pos + 1;
        }
        c := At(pos);
        pos := pos + 1;
      }
      StringEndIs(old(pos));
    }

    /** Where the loop stops, by position. */
    function StringEnd(i: nat): nat
      requires i <= |json|
      decreases |json| - i
    {
      if At(i) == NIL || At(i) == '\"' || i == |json| then i
      else if At(i) == '\\' then (if i + 1 == |json| then i + 1 else StringEnd(i + 2))
      else StringEnd(i + 1)
    }

    lemma {:induction false} StringEndIs(i: nat)
      requires i <= |json|
      ensures StringEnd(i) == i + StringLength(json[i..])
      decreases |json| - i
    {
      if i < |json| {
        var t := json[i..];
        NotNul(i);
        assert t[0] == json[i] && t[1..] == json[i + 1..];
        if json[i] == '\\' && i + 1 < |json| {
          assert t[2..] == json[i + 2..];
          StringEndIs(i + 2);
        } else {
          StringEndIs(i + 1);
        }
      }
    }

    lemma NotNul(i: nat)
      requires i < |json|
      ensures json[i] != NIL
    {
      assert json[i] in json;
    }

    /** The loop of `atomic` for numbers. */
    method ScanNumber()
      requires Valid() && pos <= |json|
      modifies this`pos
      ensures Valid() && pos == old(pos) + NumberLength(old(Left()))
    {
      var more := true;
      while more
        invariant pos <= |json|
        invariant pos + (if more then NumberLength(json[pos..]) else 0) == old(pos) + NumberLength(old(Left()))
        decreases more, |json| - pos
      {
        var c := At(pos);
        if (c < '0' || c > '9') && c != '.' {
          more := false;
        } else {
          assert json[pos..][0] == c && json[pos..][1..] == json[pos + 1..];
          pos := pos + 1;
        }
        assert !more && pos < |json| ==> json[pos..][0] == c;
      }
    }

    /** The characters of the value, as `jsonparse_copy_value` copies them. */
    function Slice(): string
      reads this`vstart, this`vlen
    {
      if vstart + vlen <= |json| then json[vstart..vstart + vlen] else ""
    }

    /** Slices of the text, and of what is left of it at a position. */
    lemma Part(p: nat, n: nat)
      requires 0 < p && p + n <= |json|
      ensures json[p..p + n] == json[p..][..n] && json[p - 1..p + n] == [json[p - 1]] + json[p..][..n]
      ensures json[p + n..] == json[p..][n..] && (p + n < |json| ==> json[p + n + 1..] == json[p..][n + 1..])
    {
    }

    lemma FirstChar(p: nat)
      requires p < |json|
      ensures json[p..] != "" && json[p..][0] == json[p] && json[p..][1..] == json[p + 1..]
    {
    }

    /** `atomic`, behind the first character of a value. */
    method ReadAtomic(kind: char)
      requires Valid() && 0 < pos <= |json|
      modifies this`pos, this`vstart, this`vlen, this`vtype
      ensures Valid()
      ensures var (t, s) := Atomic(old(Machine()), kind, json[old(pos) - 1]); Machine() == s && Slice() == t.slice
    {
      vstart, vtype := pos, kind;
      if kind != NUMBER {
        ReadString();
      } else {
        ReadNumber();
      }
    }

    method ReadString()
      requires Valid() && 0 < pos == vstart <= |json|
      modifies this`pos, this`vlen
      ensures Valid()
      ensures var text := old(Left());
              var n := StringLength(text);
              Slice() == text[..n] && Left() == if n < |text| then text[n + 1..] else ""
    {
      ScanString();
      vlen := pos - vstart - 1;
      Part(vstart, vlen);
    }

    method ReadNumber()
      requires Valid() && 0 < pos == vstart <= |json|
      modifies this`pos, this`vstart, this`vlen
      ensures Valid()
      ensures var text := old(Left());
              var n := NumberLength(text);
              Slice() == [json[old(pos) - 1]] + text[..n] && Left() == text[n..]
    {
      ScanNumber();
      vstart := vstart - 1;
      vlen := pos - vstart;
      Part(vstart + 1, vlen - 1);
    }

    /** `jsonparse_next`. There must be room on the stack: `push` does not look. */
    method NextToken() returns (kind: char)
      requires Valid() && Next(Machine()).1.deepest <= JSONPARSE_MAX_DEPTH
      modifies this, stack
      ensures Valid() && Machine() == Next(old(Machine())).1 && kind == Next(old(Machine())).0.kind
      ensures kind == NAME || kind == STRING || kind == NUMBER ==> Slice() == Next(old(Machine())).0.slice
    {
      SkipSpace();
      var c := At(pos);
      var s := GetType();
      if pos < |json| {
        FirstChar(pos);
      }
      pos := pos + 1;
      if pos > |json| {
        return NIL;
      }
      kind := DispatchOn(c, s);
    }

    /** The `switch` of `jsonparse_next`. */
    method DispatchOn(c: char, top: char) returns (kind: char)
      requires Valid() && 0 < pos <= |json| && json[pos - 1] == c && top == Top(Machine().stack)
      requires Dispatch(Machine(), c).1.deepest <= JSONPARSE_MAX_DEPTH
      modifies this, stack
      ensures Valid() && Machine() == Dispatch(old(Machine()), c).1 && kind == Dispatch(old(Machine()), c).0.kind
      ensures kind == NAME || kind == STRING || kind == NUMBER ==> Slice() == Dispatch(old(Machine()), c).0.slice
    {
      var s := top;
      kind := c;
      match c {
        case '{' => PushChar(c);
        case '}' =>
          if s == ':' && vtype != NIL {
            PopChar();
            s := GetType();
          }
          if s == '{' {
            PopChar();
          } else {
            error := SYNTAX;
            kind := NIL;
          }
        case ']' =>
          if s == '[' {
            PopChar();
          } else {
            error := UNEXPECTED_END_OF_ARRAY;
            kind := NIL;
          }
        case ':' => PushChar(c);
        case ',' =>
          if s == ':' && vtype != NIL {
            PopChar();
          } else if s != '[' {
            error := SYNTAX;
            kind := NIL;
          }
        case '\"' =>
          if s == '{' || s == '[' || s == ':' {
            kind := if s == '{' then NAME else c;
            ReadAtomic(kind);
          } else {
            error := UNEXPECTED_STRING;
            kind := NIL;
          }
        case '[' =>
          if s == '{' || s == '[' || s == ':' {
            PushChar(c);
          } else {
            error := UNEXPECTED_ARRAY;
            kind := NIL;
          }
        case _ =>
          kind := NIL;
          if (s == ':' || s == '[') && '0' <= c <= '9' {
            ReadAtomic(NUMBER);
            kind := NUMBER;
          }
      }
    }

    /** One turn of the client's loop. */
    method Turn(ghost all: seq<Token>, ghost states: seq<State>, ghost k: nat) returns (token: Token)
      requires Valid() && GoesWell(all, states) && k < |all| && Machine() == states[k]
      modifies this, stack
      ensures Valid() && Machine() == states[k + 1] && token == all[k]
    {
      assert OneStep(all, states, k);
      var kind := NextToken();
      token := Token(kind, if kind == NAME || kind == STRING || kind == NUMBER then Slice() else "");
    }

    /** The client's loop, `while(jsonparse_has_next(state))`, on a text that the machine reads
        without an error. */
    method Collect(ghost all: seq<Token>, ghost states: seq<State>) returns (tokens: seq<Token>)
      requires Valid() && GoesWell(all, states) && states[0] == Machine()
      modifies this, stack
      ensures Valid() && tokens == all && Machine() == states[|all|]
    {
      tokens := [];
      ghost var k := 0;
      TextLeft(all, states, 0);
      while pos < |json|
        invariant Valid() && k <= |all| && Machine() == states[k] && tokens == all[..k]
        invariant Left() != "" <==> k < |all|
        decreases |all| - k
      {
        var token := Turn(all, states, k);
        tokens := tokens + [token];
        k := k + 1;
        TextLeft(all, states, k);
      }
    }

    /** The tokens of a fine tree, with any white space between them, are read as these tokens, without
        an error, and the stack is empty then. The printed text is such a text. */
    method ReadAll(ghost v: Json, ghost ws: seq<string>) returns (tokens: seq<Token>)
      requires Valid() && v.Node? && v.named && Fine(v) && Need(v) <= JSONPARSE_MAX_DEPTH
      requires |ws| == |Tokens(v)| && AllWhite(ws) && json == Spaced(Tokens(v), ws, "")
      requires pos == 0 && Machine() == Start(json, vtype)
      modifies this, stack
      ensures tokens == Tokens(v) && error == OK && depth == 0
    {
      SpacedRoundTripIff(v, ws, "", vtype);
      ghost var states := Trace(v, json, vtype);
      tokens := Collect(Tokens(v), states);
      assert Machine().stack == "";
    }
  }

  /** One step of a parse that goes well. */
  predicate OneStep(all: seq<Token>, states: seq<State>, k: nat)
    requires k < |all| && |states| == |all| + 1
  {
    states[k].text != "" && Next(states[k]) == (all[k], states[k + 1]) && Shaped(all[k])
    && states[k + 1].deepest <= JSONPARSE_MAX_DEPTH
  }

  ghost predicate GoesWell(all: seq<Token>, states: seq<State>) {
    |states| == |all| + 1 && states[|all|].text == "" && forall k :: 0 <= k < |all| ==> OneStep(all, states, k)
  }

  lemma TextLeft(all: seq<Token>, states: seq<State>, k: nat)
    requires GoesWell(all, states) && k <= |all|
    ensures states[k].text != "" <==> k < |all|
  {
    assert k < |all| ==> OneStep(all, states, k);
  }

  /** The states of the machine while it reads the tokens of a tree. */
  ghost function States(v: Json, text: string, vtype: char): (s: seq<State>)
    ensures |s| == |Tokens(v)| + 1
  {
    seq(|Tokens(v)| + 1, k requires 0 <= k <= |Tokens(v)| => Run(Start(text, vtype), k).1)
  }

  lemma Trace(v: Json, text: string, vtype: char) returns (states: seq<State>)
    requires ReadsTree(text, vtype, v) && Need(v) <= JSONPARSE_MAX_DEPTH
    ensures var all := Tokens(v);
            && GoesWell(all, states) && states[0] == Start(text, vtype)
            && states[|all|] == State("", "", LastType(v), OK, Need(v))
  {
    states := States(v, text, vtype);
    forall k | 0 <= k < |Tokens(v)| ensures OneStep(Tokens(v), states, k) {
      Halfway(v, text, vtype, k);
      TokenShape(v, k);
    }
  }
}
