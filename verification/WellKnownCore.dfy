/** The resource listing of a CoAP server (section 2 of RFC 6690): each call generates only the part
    of the listing that falls into a window, without ever holding the whole. */
module WellKnownCore {
  import opened Common

  type CString = s: string | '\0' !in s

  datatype Resource = Resource(url: CString, attributes: CString)

  datatype Status = DONE | BAD_OPTION_4_02

  /** The link of one resource. */
  function Link(r: Resource): string {
    "</" + r.url + ">" + if r.attributes == "" then "" else ";" + r.attributes
  }

  /** The whole listing. */
  function Listing(rs: seq<Resource>): string {
    if rs == [] then ""
    else if |rs| == 1 then Link(rs[0])
    else Listing(rs[..|rs| - 1]) + "," + Link(rs[|rs| - 1])
  }

  /** The part of a text that lies in the window. */
  function Window(text: string, offset: nat, size: nat): string {
    if |text| <= offset then "" else text[offset..Min(|text|, offset + size)]
  }

  // ----- extending the text extends the window -----

  lemma WindowChar(text: string, c: char, offset: nat, size: nat)
    ensures Window(text + [c], offset, size) ==
            Window(text, offset, size) + if |text| >= offset && |Window(text, offset, size)| < size then [c] else ""
  {
  }

  /** The part of a string behind the start of the window. */
  function Visible(text: string, s: string, offset: nat): string {
    if |text| >= offset then s else if |text| + |s| <= offset then "" else s[offset - |text|..]
  }

  lemma WindowString(text: string, s: string, offset: nat, size: nat)
    ensures var w := Window(text, offset, size) + Visible(text, s, offset);
            Window(text + s, offset, size) == if |w| <= size then w else w[..size]
  {
    var all, w := text + s, Window(text, offset, size) + Visible(text, s, offset);
    if |text| > offset + size {
      assert Window(all, offset, size) == text[offset..offset + size];
      assert |w| > size ==> w[..size] == Window(text, offset, size);
    } else if |text| >= offset {
      assert all[offset..] == w;
      assert Window(all, offset, size) == all[offset..][..Min(|w|, size)];
    } else if |all| > offset {
      assert all[offset..] == w;
      assert Window(all, offset, size) == all[offset..][..Min(|w|, size)];
    }
  }

  /** The window of a prefix that fills it is the window of the whole. */
  lemma WindowFull(text: string, rest: string, offset: nat, size: nat)
    requires |Window(text, offset, size)| == size
    ensures size > 0 ==> Window(text + rest, offset, size) == Window(text, offset, size)
  {
  }

  // ----- the handler -----

  /** The state of the handler: the buffer, its fill level, and the position in the listing. `text` is
      what has been generated of the listing. */
  ghost predicate Generated(buffer: array<char>, bufpos: nat, strpos: nat, text: string, offset: nat, size: nat)
    reads buffer
  {
    && strpos == |text| && bufpos <= size < buffer.Length
    && buffer[..bufpos] == Window(text, offset, size)
  }

  /** ADD_CHAR_IF_POSSIBLE */
  method AddChar(c: char, buffer: array<char>, bufpos: nat, strpos: nat, offset: nat, size: nat, ghost text: string)
    returns (newBufpos: nat, newStrpos: nat)
    requires Generated(buffer, bufpos, strpos, text, offset, size)
    modifies buffer
    ensures Generated(buffer, newBufpos, newStrpos, text + [c], offset, size)
  {
    WindowChar(text, c, offset, size);
    newBufpos := bufpos;
    if strpos >= offset && bufpos < size {
      buffer[bufpos] := c;
      newBufpos := bufpos + 1;
    }
    newStrpos := strpos + 1;
  }

  /** `snprintf(buffer + at, size, "%s", s)`: what fits is written, with a NUL behind it; the
      length of the whole string is returned. */
  method Snprintf(buffer: array<char>, at: nat, size: nat, s: string) returns (length: nat)
    requires at + size <= buffer.Length && size > 0
    modifies buffer
    ensures length == |s|
    ensures buffer[..at + Min(|s|, size - 1)] == old(buffer[..at]) + s[..Min(|s|, size - 1)]
  {
    var n := Min(|s|, size - 1);
    for i := 0 to n
      invariant buffer[..at + i] == old(buffer[..at]) + s[..i]
    {
      buffer[at + i] := s[i];
    }
    buffer[at + n] := '\0';
    length := |s|;
  }

  /** The window is full already with `text`, so that whatever comes behind does not matter. */
  ghost predicate Filled(buffer: array<char>, bufpos: nat, text: string, offset: nat, size: nat)
    reads buffer
  {
    size <= bufpos && size < buffer.Length && |text| >= offset + size && buffer[..size] == Window(text, offset, size)
  }

  /** ADD_STRING_IF_POSSIBLE with the break that belongs to it: with the operator `>=` if `stopAtSize` is
      set, with `>` if not. The fill level may then lie beyond the size of the window. */
  method AddString(s: string, stopAtSize: bool, buffer: array<char>, bufpos: nat, strpos: nat, offset: nat, size: nat,
                   ghost text: string)
    returns (full: bool, newBufpos: nat, newStrpos: nat)
    requires Generated(buffer, bufpos, strpos, text, offset, size) && size > 0
    modifies buffer
    ensures if full then Filled(buffer, newBufpos, text + s, offset, size)
            && (!stopAtSize ==> |text + s| > offset + size)
            else Generated(buffer, newBufpos, newStrpos, text + s, offset, size)
                 && (stopAtSize ==> |text + s| < offset + size) && (s != "" ==> |text + s| <= offset + size)
  {
    WindowString(text, s, offset, size);
    newBufpos := bufpos;
    if strpos + |s| > offset {
      var skip := if offset > strpos then offset - strpos else 0;
      var length := Snprintf(buffer, bufpos, size - bufpos + 1, s[skip..]);
      newBufpos := bufpos + length;
      if newBufpos > size || (stopAtSize && newBufpos == size) {
        return true, newBufpos, strpos;
      }
    }
    full, newStrpos := false, strpos + |s|;
  }

  /** The part of a link in front of its attributes, with the comma before it. */
  function Target(r: Resource, first: bool): string {
    (if first then "" else ",") + "</" + r.url + ">"
  }

  method AddTarget(r: Resource, buffer: array<char>, bufpos: nat, strpos: nat, offset: nat, size: nat,
                   ghost text: string)
    returns (full: bool, newBufpos: nat, newStrpos: nat)
    requires Generated(buffer, bufpos, strpos, text, offset, size) && size > 0
    modifies buffer
    ensures if full then Filled(buffer, newBufpos, text + Target(r, text == "")[..|Target(r, text == "")| - 1],
            offset, size)
            else Generated(buffer, newBufpos, newStrpos, text + Target(r, text == ""), offset, size)
                 && |text + Target(r, text == "")| <= offset + size
  {
    newBufpos, newStrpos := bufpos, strpos;
    ghost var done := text;
    if strpos > 0 {
      newBufpos, newStrpos := AddChar(',', buffer, newBufpos, newStrpos, offset, size, done);
      done := done + ",";
    }
    newBufpos, newStrpos := AddChar('<', buffer, newBufpos, newStrpos, offset, size, done);
    newBufpos, newStrpos := AddChar('/', buffer, newBufpos, newStrpos, offset, size, done + "<");
    TargetParts(text, r, done);
    full, newBufpos, newStrpos := AddString(r.url, true, buffer, newBufpos, newStrpos, offset, size, done + "<" + "/");
    if !full {
      newBufpos, newStrpos := AddChar('>', buffer, newBufpos, newStrpos, offset, size, done + "<" + "/" + r.url);
    }
  }

  lemma TargetParts(text: string, r: Resource, done: string)
    requires done == if text == "" then text else text + ","
    ensures done + "<" + "/" + r.url == text + Target(r, text == "")[..|Target(r, text == "")| - 1]
    ensures done + "<" + "/" + r.url + ">" == text + Target(r, text == "")
  {
    var t := Target(r, text == "");
    assert t == t[..|t| - 1] + ">";
    assert t[..|t| - 1] == (if text == "" then "" else ",") + "</" + r.url;
  }

  /** One resource. With a break, the window is full before the link is complete. */
  method AddLink(r: Resource, buffer: array<char>, bufpos: nat, strpos: nat, offset: nat, size: nat, ghost text: string)
    returns (full: bool, newBufpos: nat, newStrpos: nat)
    requires Generated(buffer, bufpos, strpos, text, offset, size) && size > 0
    modifies buffer
    ensures var next := text + (if text == "" then "" else ",") + Link(r);
            if full then Filled(buffer, newBufpos, next, offset, size) && |next| > offset + size
            else Generated(buffer, newBufpos, newStrpos, next, offset, size) && |next| <= offset + size
  {
    ghost var target := text + Target(r, text == "");
    ghost var cut := Target(r, text == "")[..|Target(r, text == "")| - 1];
    LinkParts(text, r);
    full, newBufpos, newStrpos := AddTarget(r, buffer, bufpos, strpos, offset, size, text);
    if full {
      FilledBefore(buffer, newBufpos, text + cut, ">" + Suffix(r), offset, size);
      return;
    }
    if r.attributes != "" {
      newBufpos, newStrpos := AddChar(';', buffer, newBufpos, newStrpos, offset, size, target);
      full, newBufpos, newStrpos := AddString(r.attributes, false, buffer, newBufpos, newStrpos, offset, size,
          target + ";");
    }
  }

  function Suffix(r: Resource): string {
    if r.attributes == "" then "" else ";" + r.attributes
  }

  lemma LinkParts(text: string, r: Resource)
    ensures var next, t := text + (if text == "" then "" else ",") + Link(r), Target(r, text == "");
            && next == text + t[..|t| - 1] + (">" + Suffix(r))
            && next == if r.attributes == "" then text + t else text + t + ";" + r.attributes
  {
    var t := Target(r, text == "");
    assert t == t[..|t| - 1] + ">";
    assert Link(r) == "</" + r.url + ">" + Suffix(r);
    assert text + (if text == "" then "" else ",") + Link(r) == text + (t + Suffix(r));
  }

  lemma FilledBefore(buffer: array<char>, bufpos: nat, text: string, more: string, offset: nat, size: nat)
    requires Filled(buffer, bufpos, text, offset, size)
    ensures Filled(buffer, bufpos, text + more, offset, size)
  {
    WindowFull(text, more, offset, size);
  }

  lemma {:induction false} ListingPrefix(rs: seq<Resource>, i: nat)
    requires i <= |rs|
    ensures Listing(rs[..i]) <= Listing(rs)
    decreases |rs|
  {
    if i < |rs| {
      ListingPrefix(rs[..|rs| - 1], i);
      assert rs[..|rs| - 1][..i] == rs[..i];
    } else {
      assert rs[..i] == rs;
    }
  }

  lemma ListingNext(rs: seq<Resource>, i: nat)
    requires i < |rs|
    ensures Listing(rs[..i + 1]) == Listing(rs[..i]) + (if Listing(rs[..i]) == "" then "" else ",") + Link(rs[i])
  {
    assert rs[..i + 1][..i] == rs[..i];
    if i > 0 {
      assert rs[..i][i - 1] == rs[i - 1] && |Link(rs[i - 1])| > 0;
    }
  }

  /** `well_known_core_get_handler`, without filtering. The bytes that count are those of the window;
      the end of the listing is reported if and only if the window reaches it. (The check at the end
      of the source's loop never holds: behind an unbroken link the window is not overfull.) */
  method Handler(rs: seq<Resource>, buffer: array<char>, size: nat, offset: nat)
      returns (newOffset: int, bufpos: nat, status: Status)
    requires 0 < size < buffer.Length
    modifies buffer
    ensures Min(bufpos, size) == |Window(Listing(rs), offset, size)|
            && buffer[..Min(bufpos, size)] == Window(Listing(rs), offset, size)
    ensures newOffset == if offset + size >= |Listing(rs)| then -1 else offset + size
    ensures newOffset == -1 ==> bufpos <= size
    ensures status == BAD_OPTION_4_02 <==> rs != [] && offset >= |Listing(rs)|
  {
    var full, strpos;
    full, bufpos, strpos := Generate(rs, buffer, size, offset);
    SomeListing(rs);
    status := if bufpos == 0 && strpos > 0 then BAD_OPTION_4_02 else DONE;
    newOffset := if full then offset + size else -1;
  }

  lemma SomeListing(rs: seq<Resource>)
    ensures Listing(rs) == "" <==> rs == []
  {
    if rs != [] {
      assert |Link(rs[|rs| - 1])| > 0;
    }
  }

  /** The loop of the handler. */
  method Generate(rs: seq<Resource>, buffer: array<char>, size: nat, offset: nat)
      returns (full: bool, bufpos: nat, strpos: nat)
    requires 0 < size < buffer.Length
    modifies buffer
    ensures if full then Filled(buffer, bufpos, Listing(rs), offset, size) && |Listing(rs)| > offset + size
            else Generated(buffer, bufpos, strpos, Listing(rs), offset, size) && |Listing(rs)| <= offset + size
  {
    full, bufpos, strpos := false, 0, 0;
    for i := 0 to |rs|
      invariant !full && Generated(buffer, bufpos, strpos, Listing(rs[..i]), offset, size)
      invariant |Listing(rs[..i])| <= offset + size
    {
      ListingNext(rs, i);
      full, bufpos, strpos := AddLink(rs[i], buffer, bufpos, strpos, offset, size, Listing(rs[..i]));
      if full {
        ListingPrefix(rs, i + 1);
        ghost var next := Listing(rs[..i + 1]);
        FilledBefore(buffer, bufpos, next, Listing(rs)[|next|..], offset, size);
        assert next + Listing(rs)[|next|..] == Listing(rs);
        return;
      }
    }
    assert rs[..|rs|] == rs;
  }

  /** A client that asks for one window after the other gets the whole listing. */
  method FetchAll(rs: seq<Resource>, buffer: array<char>, size: nat) returns (listing: string)
    requires 0 < size < buffer.Length
    modifies buffer
    ensures listing == Listing(rs)
  {
    listing := "";
    var offset := 0;
    ghost var all := Listing(rs);
    while offset >= 0
      invariant if offset < 0 then listing == all else offset <= |all| && listing == all[..offset]
      decreases if offset < 0 then 0 else |all| + 1 - offset
    {
      var bufpos, status;
      ghost var from := offset;
      offset, bufpos, status := Handler(rs, buffer, size, offset);
      listing := listing + buffer[..Min(bufpos, size)];
      assert all[..from] + Window(all, from, size) == all[..Min(|all|, from + size)];
      assert all[..|all|] == all;
    }
  }
}
