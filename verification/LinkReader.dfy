/** A reader of the link format (section 2 of RFC 6690), for links without a comma in their attributes:
    what a client gets from the listing of a server. */
module LinkReader {
  import opened Common
  import opened WellKnownCore

  /** Where a character occurs first, or the end. */
  function Find(text: string, c: char): (n: nat)
    ensures n <= |text| && (n < |text| ==> text[n] == c)
  {
    if text == "" || text[0] == c then 0 else 1 + Find(text[1..], c)
  }

  lemma {:induction false} FindAfter(s: string, c: char, rest: string)
    requires c !in s && (rest == "" || rest[0] == c)
    ensures Find(s + rest, c) == |s|
  {
    if s != "" {
      assert (s + rest)[1..] == s[1..] + rest;
      FindAfter(s[1..], c, rest);
    } else {
      assert s + rest == rest;
    }
  }

  /** Attributes behind a semicolon, if there are any, and the text behind them. */
  function ReadAttributes(tail: string): (r: (string, string))
    ensures |r.1| <= |tail|
  {
    if tail == "" || tail[0] != ';' then ("", tail) else
    var m := Find(tail[1..], ',');
    (tail[1..][..m], tail[1..][m..])
  }

  /** One link, `<` `/` url `>` and its attributes, and the text behind it. */
  function ReadLink(text: string): (r: Option<(string, string, string)>)
    ensures r.Some? ==> |r.value.2| < |text|
  {
    if |text| < 2 || text[0] != '<' || text[1] != '/' then None else
    var n := Find(text[2..], '>');
    if n == |text| - 2 then None else
    var (attributes, rest) := ReadAttributes(text[2..][n + 1..]);
    Some((text[2..][..n], attributes, rest))
  }

  /** A list of links with commas between them; each as its url and its attributes. */
  function ReadLinks(text: string): Option<seq<(string, string)>> {
    var r := ReadLink(text);
    if r.None? then None
    else if r.value.2 == "" then Some([(r.value.0, r.value.1)])
    else if r.value.2[0] != ',' then None
    else
      var rest := ReadLinks(r.value.2[1..]);
      if rest.None? then None else Some([(r.value.0, r.value.1)] + rest.value)
  }

  /** Nothing in the resource looks like the end of its url or of its link. */
  predicate Plain(r: Resource) {
    '>' !in r.url && ',' !in r.attributes
  }

  function Pairs(rs: seq<Resource>): seq<(string, string)> {
    seq(|rs|, i requires 0 <= i < |rs| => (rs[i].url, rs[i].attributes))
  }

  function Suffix(r: Resource): string {
    if r.attributes == "" then "" else ";" + r.attributes
  }

  lemma AttributesRead(r: Resource, rest: string)
    requires Plain(r) && (rest == "" || rest[0] == ',')
    ensures ReadAttributes(Suffix(r) + rest) == (r.attributes, rest)
  {
    if r.attributes != "" {
      assert (Suffix(r) + rest)[1..] == r.attributes + rest;
      FindAfter(r.attributes, ',', rest);
    } else {
      assert "" + rest == rest;
    }
  }

  lemma UrlRead(url: string, tail: string)
    requires '>' !in url
    ensures var text := "</" + (url + (">" + tail));
            var (attributes, rest) := ReadAttributes(tail);
            ReadLink(text) == Some((url, attributes, rest))
  {
    var inner := url + (">" + tail);
    assert ("</" + inner)[2..] == inner;
    FindAfter(url, '>', ">" + tail);
    assert inner[..|url|] == url && inner[|url| + 1..] == tail;
  }

  lemma LinkRead(r: Resource, rest: string)
    requires Plain(r) && (rest == "" || rest[0] == ',')
    ensures ReadLink(Link(r) + rest) == Some((r.url, r.attributes, rest))
  {
    AttributesRead(r, rest);
    UrlRead(r.url, Suffix(r) + rest);
    LinkParts(r, rest);
  }

  lemma LinkParts(r: Resource, rest: string)
    ensures Link(r) + rest == "</" + (r.url + (">" + (Suffix(r) + rest)))
  {
    assert Link(r) == "</" + r.url + ">" + Suffix(r);
  }

  lemma ReadMore(text: string, url: string, attributes: string, more: string, rest: seq<(string, string)>)
    requires ReadLink(text) == Some((url, attributes, "," + more)) && ReadLinks(more) == Some(rest)
    ensures ReadLinks(text) == Some([(url, attributes)] + rest)
  {
    assert ("," + more)[1..] == more;
  }

  lemma {:induction false} ListingFront(rs: seq<Resource>)
    requires |rs| > 1
    ensures Listing(rs) == Link(rs[0]) + ("," + Listing(rs[1..]))
  {
    var n := |rs| - 1;
    var last := "," + Link(rs[n]);
    if n > 1 {
      ListingFront(rs[..n]);
      assert rs[..n][1..] == rs[1..][..n - 1] && rs[1..][n - 1] == rs[n];
      Assoc(Link(rs[0]), "," + Listing(rs[1..][..n - 1]), last);
    } else {
      assert rs[..n] == [rs[0]] && rs[1..] == [rs[1]];
    }
  }

  lemma OneRead(rs: seq<Resource>)
    requires |rs| == 1 && Plain(rs[0])
    ensures ReadLinks(Link(rs[0])) == Some(Pairs(rs))
  {
    LinkRead(rs[0], "");
    assert Link(rs[0]) + "" == Link(rs[0]);
    assert Pairs(rs) == [(rs[0].url, rs[0].attributes)];
  }

  lemma MoreRead(rs: seq<Resource>, text: string, more: string)
    requires |rs| > 1 && Plain(rs[0]) && text == Link(rs[0]) + ("," + more)
    requires ReadLinks(more) == Some(Pairs(rs[1..]))
    ensures ReadLinks(text) == Some(Pairs(rs))
  {
    LinkRead(rs[0], "," + more);
    ReadMore(text, rs[0].url, rs[0].attributes, more, Pairs(rs[1..]));
    PairsFront(rs);
  }

  lemma PairsFront(rs: seq<Resource>)
    requires rs != []
    ensures Pairs(rs) == [(rs[0].url, rs[0].attributes)] + Pairs(rs[1..])
  {
  }

  /** The listing of plain resources is read back as these resources, in their order. */
  lemma {:induction false} ListingRead(rs: seq<Resource>)
    requires rs != [] && forall i :: 0 <= i < |rs| ==> Plain(rs[i])
    ensures ReadLinks(Listing(rs)) == Some(Pairs(rs))
  {
    if |rs| == 1 {
      OneRead(rs);
    } else {
      ListingFront(rs);
      ListingRead(rs[1..]);
      MoreRead(rs, Listing(rs), Listing(rs[1..]));
    }
  }
}
