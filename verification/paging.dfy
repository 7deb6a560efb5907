/**
 * Pagination links read from the `Link` response header: one link per header
 * value, a `<target>` first segment, and `rel="next"`, `rel="prev"` or
 * `rel="self"` matched exactly after trimming. Malformed values are skipped,
 * and later values overwrite earlier ones.
 */
module Paging {
  import opened Wrappers
  import opened GoStrings
  import opened Http

  datatype Pagination = Pagination(prev: string, next: string, self: string)

  const EmptyPagination: Pagination := Pagination("", "", "")

  datatype Relation = Next | Prev | Self

  /** The exact segment text that names a relation. */
  function Token(rel: Relation): string {
    match rel
    case Next => "rel=\"next\""
    case Prev => "rel=\"prev\""
    case Self => "rel=\"self\""
  }

  function Field(p: Pagination, rel: Relation): string {
    match rel
    case Next => p.next
    case Prev => p.prev
    case Self => p.self
  }

  function WithField(p: Pagination, rel: Relation, url: string): (q: Pagination)
    ensures Field(q, rel) == url
    ensures forall other :: other != rel ==> Field(q, other) == Field(p, other)
  {
    match rel
    case Next => p.(next := url)
    case Prev => p.(prev := url)
    case Self => p.(self := url)
  }

  /** The three tokens differ from one another (they differ at their sixth character). */
  lemma TokensDistinct(r1: Relation, r2: Relation)
    ensures Token(r1) == Token(r2) <==> r1 == r2
  {
    assert Token(Next)[5] == 'n' && Token(Prev)[5] == 'p' && Token(Self)[5] == 's';
  }

  /** The relation a segment names once trimmed, if it is exactly one of the three tokens. */
  function RelationOf(segment: string): (r: Option<Relation>)
    ensures forall rel :: r == Some(rel) <==> TrimSpace(segment) == Token(rel)
  {
    var s := TrimSpace(segment);
    assert forall r1, r2 :: Token(r1) == Token(r2) ==> r1 == r2 by {
      forall r1, r2 ensures Token(r1) == Token(r2) ==> r1 == r2 { TokensDistinct(r1, r2); }
    }
    if s == Token(Next) then Some(Next)
    else if s == Token(Prev) then Some(Prev)
    else if s == Token(Self) then Some(Self)
    else None
  }

  /** The inner `for _, segment := range segments[1:]` loop with its switch. */
  function ApplySegments(p: Pagination, segments: seq<string>, url: string): Pagination
    decreases |segments|
  {
    if |segments| == 0 then p
    else
      var q := match RelationOf(segments[0]) case Some(rel) => WithField(p, rel, url) case None => p;
      ApplySegments(q, segments[1..], url)
  }

  /** The `;`-separated segments of a trimmed header value. */
  function Segments(link: string): seq<string> {
    Split(TrimSpace(link), ';')
  }

  /** Whether the first segment has the `<…>` shape of a link target. */
  predicate Bracketed(segment: string) {
    HasPrefix(segment, "<") && HasSuffix(segment, ">")
  }

  /** The text between the angle brackets. */
  function Inner(segment: string): string
    requires Bracketed(segment)
  {
    assert |segment| >= 2 by {
      assert segment[0] == '<' && segment[|segment| - 1] == '>';
    }
    segment[1..|segment| - 1]
  }

  /**
   * The normalised target URL of a header value, or None when the value is
   * skipped: fewer than two segments, a first segment not in angle brackets,
   * or a target that does not parse.
   */
  function Target(link: string, parse: UrlParser): Option<string> {
    var segments := Segments(link);
    if |segments| < 2 || !Bracketed(segments[0]) then None
    else parse(Inner(segments[0]))
  }

  /** Whether some segment after the target names `rel`. */
  predicate Declares(link: string, rel: Relation) {
    var segments := Segments(link);
    exists j :: 1 <= j < |segments| && TrimSpace(segments[j]) == Token(rel)
  }

  /** One iteration of the outer loop: one header value. */
  function ApplyLink(p: Pagination, link: string, parse: UrlParser): Pagination {
    var segments := Segments(link);
    if |segments| < 2 then p
    else if !Bracketed(segments[0]) then p
    else
      match parse(Inner(segments[0]))
      case None => p
      case Some(url) => ApplySegments(p, segments[1..], url)
  }

  /** The outer loop over the header values, in order. */
  function ApplyLinks(p: Pagination, links: seq<string>, parse: UrlParser): Pagination
    decreases |links|
  {
    if |links| == 0 then p else ApplyLinks(ApplyLink(p, links[0], parse), links[1..], parse)
  }

  /** populatePageValues, starting from the empty Pagination the caller installs. */
  function PopulatePageValues(h: Header, parse: UrlParser): Pagination {
    if "Link" in h && |h["Link"]| > 0 then ApplyLinks(EmptyPagination, h["Link"], parse) else EmptyPagination
  }

  // ---------------------------------------------------------------------------
  // A declarative reading: each field is the target of the LAST well-formed
  // value that declares its relation, or "" when no value does.
  // ---------------------------------------------------------------------------

  /** The target of the last value of `links` that is well-formed and declares `rel`, else `fallback`. */
  function LastDeclared(links: seq<string>, rel: Relation, parse: UrlParser, fallback: string): string {
    if |links| == 0 then fallback
    else
      var link := links[|links| - 1];
      if Target(link, parse).Some? && Declares(link, rel) then Target(link, parse).value
      else LastDeclared(links[..|links| - 1], rel, parse, fallback)
  }

  /** The segment loop sets a field exactly when some segment names its relation. */
  lemma {:induction false} ApplySegmentsField(p: Pagination, segments: seq<string>, url: string, rel: Relation)
    ensures Field(ApplySegments(p, segments, url), rel)
         == if exists j :: 0 <= j < |segments| && TrimSpace(segments[j]) == Token(rel) then url else Field(p, rel)
    decreases |segments|
  {
    if |segments| > 0 {
      var q := match RelationOf(segments[0]) case Some(r) => WithField(p, r, url) case None => p;
      ApplySegmentsField(q, segments[1..], url, rel);
      if exists j :: 0 <= j < |segments| && TrimSpace(segments[j]) == Token(rel) {
        var j :| 0 <= j < |segments| && TrimSpace(segments[j]) == Token(rel);
        if j > 0 {
          assert TrimSpace(segments[1..][j - 1]) == Token(rel);
        }
      } else {
        forall j | 0 <= j < |segments| - 1
          ensures TrimSpace(segments[1..][j]) != Token(rel)
        {
          assert segments[1..][j] == segments[j + 1];
        }
      }
    }
  }

  /** One header value sets a field exactly when it is well-formed and declares that relation. */
  lemma ApplyLinkField(p: Pagination, link: string, parse: UrlParser, rel: Relation)
    ensures Field(ApplyLink(p, link, parse), rel)
         == if Target(link, parse).Some? && Declares(link, rel) then Target(link, parse).value else Field(p, rel)
  {
    var segments := Segments(link);
    if |segments| >= 2 && Bracketed(segments[0]) && parse(Inner(segments[0])).Some? {
      var url := parse(Inner(segments[0])).value;
      var rest := segments[1..];
      ApplySegmentsField(p, rest, url, rel);
      if Declares(link, rel) {
        var j :| 1 <= j < |segments| && TrimSpace(segments[j]) == Token(rel);
        assert rest[j - 1] == segments[j];
      } else {
        forall j | 0 <= j < |rest| ensures TrimSpace(rest[j]) != Token(rel) {
          assert rest[j] == segments[j + 1];
        }
      }
    }
  }

  /** Processing `links + [link]` is processing `links`, then `link`. */
  lemma {:induction false} ApplyLinksSnoc(p: Pagination, links: seq<string>, link: string, parse: UrlParser)
    ensures ApplyLinks(p, links + [link], parse) == ApplyLink(ApplyLinks(p, links, parse), link, parse)
    decreases |links|
  {
    if |links| > 0 {
      assert (links + [link])[1..] == links[1..] + [link];
      ApplyLinksSnoc(ApplyLink(p, links[0], parse), links[1..], link, parse);
    }
  }

  /** The loop computes the declarative reading: last well-formed declaration wins. */
  lemma {:induction false} ApplyLinksField(p: Pagination, links: seq<string>, parse: UrlParser, rel: Relation)
    ensures Field(ApplyLinks(p, links, parse), rel) == LastDeclared(links, rel, parse, Field(p, rel))
    decreases |links|
  {
    if |links| > 0 {
      var init := links[..|links| - 1];
      var last := links[|links| - 1];
      assert init + [last] == links;
      ApplyLinksSnoc(p, init, last, parse);
      ApplyLinksField(p, init, parse, rel);
      ApplyLinkField(ApplyLinks(p, init, parse), last, parse, rel);
    }
  }

  /** Each pagination field is the target of the last value declaring it, and "" when none does. */
  lemma PopulatePageValuesFields(h: Header, parse: UrlParser, rel: Relation)
    ensures Field(PopulatePageValues(h, parse), rel)
         == LastDeclared(if "Link" in h then h["Link"] else [], rel, parse, "")
  {
    if "Link" in h && |h["Link"]| > 0 {
      ApplyLinksField(EmptyPagination, h["Link"], parse, rel);
    }
  }

  /** A skipped value changes nothing, so removing it leaves the result of the other values intact. */
  lemma SkippedValueIsInert(p: Pagination, before: seq<string>, link: string, after: seq<string>, parse: UrlParser)
    requires Target(link, parse).None?
    ensures ApplyLink(p, link, parse) == p
    ensures ApplyLinks(p, before + [link] + after, parse) == ApplyLinks(p, before + after, parse)
  {
    ApplyLinksConcat(p, before + [link], after, parse);
    ApplyLinksConcat(p, before, after, parse);
    ApplyLinksSnoc(p, before, link, parse);
  }

  lemma {:induction false} ApplyLinksConcat(p: Pagination, a: seq<string>, b: seq<string>, parse: UrlParser)
    ensures ApplyLinks(p, a + b, parse) == ApplyLinks(ApplyLinks(p, a, parse), b, parse)
    decreases |a|
  {
    if |a| > 0 {
      assert (a + b)[1..] == a[1..] + b;
      ApplyLinksConcat(ApplyLink(p, a[0], parse), a[1..], b, parse);
    } else {
      assert a + b == b;
    }
  }

  // ---------------------------------------------------------------------------
  // Worked shapes
  // ---------------------------------------------------------------------------

  /** The header value `<u>; rel="…"`. */
  function LinkValue(u: string, rel: Relation): string {
    "<" + u + ">; " + Token(rel)
  }

  lemma TokenShape(rel: Relation)
    ensures ';' !in Token(rel) && ';' !in " " + Token(rel)
    ensures TrimSpace(" " + Token(rel)) == Token(rel)
  {
    var t := Token(rel);
    assert t[0] == 'r' && t[|t| - 1] == '"';
    assert forall i :: 0 <= i < |t| ==> t[i] != ';';
    assert forall i :: 0 <= i < |" " + t| ==> (" " + t)[i] != ';' by {
      forall i | 0 <= i < |" " + t| ensures (" " + t)[i] != ';' {
        if i > 0 { assert (" " + t)[i] == t[i - 1]; }
      }
    }
    TrimSpaceAfterSpace(" ", t);
  }

  lemma BracketedHasNoSemicolon(u: string)
    requires ';' !in u
    ensures ';' !in "<" + u + ">"
  {
    var a := "<" + u + ">";
    forall i | 0 <= i < |a| ensures a[i] != ';' {
      if 0 < i < |a| - 1 { assert a[i] == u[i - 1]; }
    }
  }

  lemma MiddleHasNoSemicolon(b: string)
    requires ';' !in b
    ensures ';' !in " " + Token(Next) + ", <" + b + ">"
  {
    var mid := " " + Token(Next) + ", <" + b + ">";
    TokenShape(Next);
    forall i | 0 <= i < |mid| ensures mid[i] != ';' {
      if i < 11 {
        assert mid[i] == (" " + Token(Next))[i];
      } else if 14 <= i < |mid| - 1 {
        assert mid[i] == b[i - 14];
      }
    }
  }

  /** A single well-formed value sets exactly its own relation. */
  lemma LinkValueSegments(u: string, rel: Relation)
    requires ';' !in u
    ensures Segments(LinkValue(u, rel)) == ["<" + u + ">", " " + Token(rel)]
  {
    var v := LinkValue(u, rel);
    LinkValueTrimmed(u, rel);
    TokenShape(rel);
    assert v == ("<" + u + ">") + [';'] + (" " + Token(rel));
    BracketedHasNoSemicolon(u);
    SplitAfterPiece("<" + u + ">", " " + Token(rel), ';');
    SplitNoSeparator(" " + Token(rel), ';');
  }

  lemma LinkValueTrimmed(u: string, rel: Relation)
    ensures TrimSpace(LinkValue(u, rel)) == LinkValue(u, rel)
  {
    var v := LinkValue(u, rel);
    assert v[0] == '<' && v[|v| - 1] == '"';
  }

  /** A well-formed single-link value sets its own relation to the parsed target and nothing else. */
  lemma LinkValueApplies(p: Pagination, u: string, rel: Relation, parse: UrlParser)
    requires ';' !in u && parse(u).Some?
    ensures ApplyLink(p, LinkValue(u, rel), parse) == WithField(p, rel, parse(u).value)
  {
    LinkValueSegments(u, rel);
    TokenShape(rel);
    var segments := Segments(LinkValue(u, rel));
    assert Bracketed(segments[0]) && Inner(segments[0]) == u;
    assert segments[1..] == [" " + Token(rel)];
    assert RelationOf(" " + Token(rel)) == Some(rel);
    var url := parse(u).value;
    assert ApplySegments(p, segments[1..], url) == ApplySegments(WithField(p, rel, url), [], url);
  }

  /**
   * Two links sent as two header values are both picked up:
   * `<a>; rel="next"` then `<b>; rel="prev"` give Next = a and Prev = b.
   */
  lemma SeparateValues(a: string, b: string, parse: UrlParser)
    requires ';' !in a && ';' !in b
    requires parse(a).Some? && parse(b).Some?
    ensures ApplyLinks(EmptyPagination, [LinkValue(a, Next), LinkValue(b, Prev)], parse)
         == Pagination(parse(b).value, parse(a).value, "")
  {
    var links := [LinkValue(a, Next), LinkValue(b, Prev)];
    LinkValueApplies(EmptyPagination, a, Next, parse);
    var p1 := ApplyLink(EmptyPagination, links[0], parse);
    LinkValueApplies(p1, b, Prev, parse);
    var p2 := ApplyLink(p1, links[1], parse);
    assert p1 == Pagination("", parse(a).value, "");
    assert p2 == Pagination(parse(b).value, parse(a).value, "");
    assert links[1..] == [LinkValue(b, Prev)];
    assert links[1..][1..] == [];
    assert ApplyLinks(EmptyPagination, links, parse) == ApplyLinks(p1, links[1..], parse);
    assert ApplyLinks(p1, links[1..], parse) == ApplyLinks(p2, [], parse);
  }

  /** The segments of the comma-joined value `<a>; rel="next", <b>; rel="prev"`. */
  lemma CommaJoinedSegments(a: string, b: string)
    requires ';' !in a && ';' !in b
    ensures Segments("<" + a + ">; " + Token(Next) + ", <" + b + ">; " + Token(Prev))
         == ["<" + a + ">", " " + Token(Next) + ", <" + b + ">", " " + Token(Prev)]
  {
    var mid := " " + Token(Next) + ", <" + b + ">";
    var last := " " + Token(Prev);
    var head := "<" + a + ">";
    var v := "<" + a + ">; " + Token(Next) + ", <" + b + ">; " + Token(Prev);
    assert v == head + [';'] + (mid + [';'] + last);
    assert v[0] == '<' && v[|v| - 1] == '"';
    assert TrimSpace(v) == v;
    TokenShape(Next);
    TokenShape(Prev);
    BracketedHasNoSemicolon(a);
    MiddleHasNoSemicolon(b);
    SplitAfterPiece(head, mid + [';'] + last, ';');
    SplitAfterPiece(mid, last, ';');
    SplitNoSeparator(last, ';');
  }

  /** The middle segment ` rel="next", <b>` is longer than every token once trimmed, so it names no relation. */
  lemma CommaJoinedMiddle(b: string)
    ensures RelationOf(" " + Token(Next) + ", <" + b + ">") == None
  {
    var mid := " " + Token(Next) + ", <" + b + ">";
    TrimSpaceAfterSpace(" ", mid[1..]);
    assert mid == " " + mid[1..];
    assert mid[1..][0] == 'r' && mid[1..][|mid[1..]| - 1] == '>';
    assert TrimSpace(mid) == mid[1..];
    assert |mid[1..]| > |Token(Next)| && |Token(Next)| == |Token(Prev)| == |Token(Self)|;
  }

  /**
   * Commas are not separators: the single value `<a>; rel="next", <b>; rel="prev"`
   * has segments `<a>`, ` rel="next", <b>` and ` rel="prev"`, so it sets
   * Prev = a and leaves Next empty.
   */
  lemma CommaJoinedValue(a: string, b: string, parse: UrlParser)
    requires ';' !in a && ';' !in b
    requires parse(a).Some?
    ensures ApplyLinks(EmptyPagination, ["<" + a + ">; " + Token(Next) + ", <" + b + ">; " + Token(Prev)], parse)
         == Pagination(parse(a).value, "", "")
  {
    var v := "<" + a + ">; " + Token(Next) + ", <" + b + ">; " + Token(Prev);
    CommaJoinedSegments(a, b);
    CommaJoinedMiddle(b);
    TokenShape(Prev);
    var segments := Segments(v);
    assert Bracketed(segments[0]) && Inner(segments[0]) == a;
    var url := parse(a).value;
    var rest := segments[1..];
    assert RelationOf(rest[1]) == Some(Prev);
    assert ApplySegments(EmptyPagination, rest, url) == ApplySegments(EmptyPagination, rest[1..], url);
    assert ApplySegments(EmptyPagination, rest[1..], url) == ApplySegments(Pagination(url, "", ""), rest[1..][1..], url);
    assert [v][1..] == [];
  }

  /** A space before the first `;` leaves the target segment without its closing `>`, so the value is skipped. */
  lemma SpaceBeforeSemicolon(u: string, parse: UrlParser)
    requires ';' !in u
    ensures Target("<" + u + "> ; " + Token(Next), parse).None?
  {
    var v := "<" + u + "> ; " + Token(Next);
    var head := "<" + u + "> ";
    TokenShape(Next);
    assert v == head + [';'] + (" " + Token(Next));
    assert v[0] == '<' && v[|v| - 1] == '"';
    assert TrimSpace(v) == v;
    assert ';' !in head by {
      forall i | 0 <= i < |head| ensures head[i] != ';' {
        if 0 < i < |head| - 2 { assert head[i] == u[i - 1]; }
      }
    }
    SplitAfterPiece(head, " " + Token(Next), ';');
    SplitNoSeparator(" " + Token(Next), ';');
    assert Segments(v)[0] == head;
    assert head[|head| - 1] == ' ';
  }
}
