/** JSON trees: what they look like as text. */
module JsonTree {

  /** A C string holds no NUL. */
  type CString = s: string | '\0' !in s

  /** An `int` of 32 bits; the smallest one has no positive counterpart and is left out. */
  type CInt = n: int | -0x7FFF_FFFF <= n <= 0x7FFF_FFFF

  /** A container is an object if its members have names, and an array if not. */
  datatype Json =
    | Text(s: CString)
    | Number(n: CInt)
    | Node(named: bool, members: seq<Member>)

  datatype Member = Member(name: CString, value: Json)

  /** `jsontree_write_string`: only quotes are escaped. */
  function Escape(s: string): string {
    if s == "" then "" else (if s[0] == '\"' then "\\\"" else [s[0]]) + Escape(s[1..])
  }

  function Quote(s: string): string {
    "\"" + Escape(s) + "\""
  }

  function Digits(n: nat): (s: string)
    ensures s != "" && forall i :: 0 <= i < |s| ==> '0' <= s[i] <= '9'
  {
    (if n < 10 then "" else Digits(n / 10)) + ['0' + (n % 10) as char]
  }

  function Decimal(n: int): string {
    if n < 0 then "-" + Digits(-n) else Digits(n)
  }

  function Open(v: Json): char
    requires v.Node?
  {
    if v.named then '{' else '['
  }

  function Close(v: Json): char
    requires v.Node?
  {
    if v.named then '}' else ']'
  }

  /** A member, with its name if it has one. */
  function Head(v: Json, i: nat): string
    requires v.Node? && i < |v.members|
  {
    (if i > 0 then ",\n" else "") + (if v.named then Quote(v.members[i].name) + ":" else "")
  }

  /** The text of a tree. */
  function Render(v: Json): string
    decreases v, if v.Node? then |v.members| + 2 else 0
  {
    match v
    case Text(s) => Quote(s)
    case Number(n) => Decimal(n)
    case Node(_, _) => [Open(v)] + "\n" + RenderFrom(v, 0)
  }

  /** The text of a container from member `i` on. */
  function RenderFrom(v: Json, i: nat): string
    requires v.Node? && i <= |v.members|
    decreases v, |v.members| - i + 1
  {
    if i == |v.members| then "\n" + [Close(v)]
    else Head(v, i) + Render(v.members[i].value) + RenderFrom(v, i + 1)
  }

  /** The number of levels of a tree. */
  function Height(v: Json): nat
    decreases v, if v.Node? then |v.members| + 2 else 0
  {
    if v.Node? then 1 + HighestFrom(v, 0) else 1
  }

  function HighestFrom(v: Json, i: nat): nat
    requires v.Node? && i <= |v.members|
    decreases v, |v.members| - i + 1
  {
    if i == |v.members| then 0 else Max(Height(v.members[i].value), HighestFrom(v, i + 1))
  }

  function Max(a: nat, b: nat): nat { if a > b then a else b }

  lemma {:induction false} MemberHeight(v: Json, i: nat, k: nat)
    requires v.Node? && i <= k < |v.members|
    ensures Height(v.members[k].value) <= HighestFrom(v, i)
    decreases k - i
  {
    if i < k {
      MemberHeight(v, i + 1, k);
    }
  }
}
