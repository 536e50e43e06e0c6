/** The Rocket-to-OpenAPI path translation (backend/src/spec_path.rs) as a printer and parser
    pair. The target notation is the "Path Templating" section of the OpenAPI Specification. */
module SpecPath {
  import opened Wrappers

  // ---- Text helpers

  /** The first position of `c`, or the length if there is none. */
  function Find(s: string, c: char): (i: nat)
    ensures i <= |s| && c !in s[..i] && (i < |s| ==> s[i] == c)
  {
    if s == "" || s[0] == c then 0 else 1 + Find(s[1..], c)
  }

  function TrimDots(s: string): string {
    if s != "" && s[|s| - 1] == '.' then TrimDots(s[..|s| - 1]) else s
  }

  function Dots(n: nat): string {
    if n == 0 then "" else Dots(n - 1) + "."
  }

  lemma {:induction false} TrimDotsStrips(name: string, n: nat)
    requires name == "" || name[|name| - 1] != '.'
    ensures TrimDots(name + Dots(n)) == name
    decreases n
  {
    if n == 0 {
      assert name + "" == name;
    } else {
      var s := name + Dots(n);
      assert s[|s| - 1] == '.' && s[..|s| - 1] == name + Dots(n - 1);
      TrimDotsStrips(name, n - 1);
    }
  }

  // ---- The scanner

  /** A declaration and the literal text before it. */
  datatype Segment = Segment(prefix: string, template: string)

  datatype Scan = Scan(segments: seq<Segment>, trailing: string)

  /** The remainder starts with a complete declaration somewhere. */
  predicate HasDeclaration(rest: string) {
    var start := Find(rest, '<');
    start < |rest| && Find(rest[start + 1..], '>') < |rest[start + 1..]|
  }

  function FirstSegment(rest: string): Segment
    requires HasDeclaration(rest)
  {
    var start := Find(rest, '<');
    var after := rest[start + 1..];
    Segment(rest[..start], TrimDots(after[..Find(after, '>')]))
  }

  function AfterFirst(rest: string): (r: string)
    requires HasDeclaration(rest)
    ensures |r| < |rest|
  {
    var after := rest[Find(rest, '<') + 1..];
    after[Find(after, '>') + 1..]
  }

  function ScanPath(rest: string): Scan
    decreases |rest|
  {
    if HasDeclaration(rest) then
      var tail := ScanPath(AfterFirst(rest));
      Scan([FirstSegment(rest)] + tail.segments, tail.trailing)
    else Scan([], rest)
  }

  function PathOf(uri: string): string {
    uri[..Find(uri, '?')]
  }

  /** Declarations in template form, followed by `after`. */
  function Render(segments: seq<Segment>, after: string): string {
    if segments == [] then after
    else segments[0].prefix + ("{" + (segments[0].template + ("}" + Render(segments[1..], after))))
  }

  /** The template form of a path. */
  function Translate(path: string): string {
    Render(ScanPath(path).segments, ScanPath(path).trailing)
  }

  /** What is still to be returned once `segments` have been read before `rest`. */
  function Resume(segments: seq<Segment>, rest: string): Scan {
    Scan(segments + ScanPath(rest).segments, ScanPath(rest).trailing)
  }

  lemma {:induction false} ResumeStep(segments: seq<Segment>, rest: string)
    requires HasDeclaration(rest)
    ensures Resume(segments, rest) == Resume(segments + [FirstSegment(rest)], AfterFirst(rest))
  {
    var deeper := ScanPath(AfterFirst(rest)).segments;
    assert segments + ([FirstSegment(rest)] + deeper) == (segments + [FirstSegment(rest)]) + deeper;
  }

  lemma ResumeEnd(segments: seq<Segment>, rest: string)
    ensures !HasDeclaration(rest) ==> Resume(segments, rest) == Scan(segments, rest)
    ensures Resume([], rest) == ScanPath(rest)
  {
  }

  /** The first complete declaration and what follows it. */
  method ReadDeclaration(rest: string) returns (r: Option<(Segment, string)>)
    ensures r == if HasDeclaration(rest) then Some((FirstSegment(rest), AfterFirst(rest))) else None
  {
    var start := Find(rest, '<');
    if start == |rest| {
      return None;
    }
    var after := rest[start + 1..];
    var end := Find(after, '>');
    if end == |after| {
      return None;
    }
    r := Some((Segment(rest[..start], TrimDots(after[..end])), after[end + 1..]));
  }

  /** Read declarations until none is complete; whatever is left is passed through. */
  method ScanDeclarations(path: string) returns (scan: Scan)
    ensures scan == ScanPath(path)
  {
    var segments: seq<Segment> := [];
    var rest := path;
    ResumeEnd(segments, rest);
    var next := ReadDeclaration(rest);
    while next.Some?
      invariant Resume(segments, rest) == ScanPath(path)
      invariant next == if HasDeclaration(rest) then Some((FirstSegment(rest), AfterFirst(rest))) else None
      decreases |rest|
    {
      ResumeStep(segments, rest);
      segments, rest := segments + [next.value.0], next.value.1;
      next := ReadDeclaration(rest);
    }
    ResumeEnd(segments, rest);
    scan := Scan(segments, rest);
  }

  method ToSpecPath(uri: string) returns (out: string)
    ensures out == Translate(PathOf(uri))
  {
    var path := uri[..Find(uri, '?')];
    var scan := ScanDeclarations(path);
    out := "";
    assert scan.segments[0..] == scan.segments;
    for i := 0 to |scan.segments|
      invariant out + Render(scan.segments[i..], scan.trailing) == Translate(path)
    {
      var segment := scan.segments[i];
      assert scan.segments[i..][1..] == scan.segments[i + 1..];
      PushFour(out, segment.prefix, segment.template, Render(scan.segments[i + 1..], scan.trailing));
      out := out + segment.prefix;
      out := out + "{";
      out := out + segment.template;
      out := out + "}";
    }
    out := out + scan.trailing;
  }

  lemma Assoc(a: string, b: string, c: string)
    ensures a + (b + c) == (a + b) + c
  {
  }

  lemma PushFour(out: string, prefix: string, template: string, rest: string)
    ensures out + (prefix + ("{" + (template + ("}" + rest)))) == out + prefix + "{" + template + "}" + rest
  {
    Assoc(out, prefix, "{" + (template + ("}" + rest)));
    Assoc(out + prefix, "{", template + ("}" + rest));
    Assoc(out + prefix + "{", template, "}" + rest);
    Assoc(out + prefix + "{" + template, "}", rest);
  }

  // ---- Printing routes both ways

  /** A piece of a route: literal text, or a parameter declared `<name>`, `<name..>` or with any
      number of dots. */
  datatype Part = Literal(text: string) | Param(name: string, dots: nat)

  predicate WellFormed(p: Part) {
    match p
    case Literal(text) => '<' !in text && '?' !in text
    case Param(name, _) => '>' !in name && '?' !in name && (name == "" || name[|name| - 1] != '.')
  }

  /** A route as Rocket spells it, followed by `after`. */
  function PrintRocket(parts: seq<Part>, after: string): string {
    if parts == [] then after
    else match parts[0]
      case Literal(text) => text + PrintRocket(parts[1..], after)
      case Param(name, dots) => "<" + ((name + Dots(dots)) + (">" + PrintRocket(parts[1..], after)))
  }

  /** The same route as an OpenAPI path template, followed by `after`. */
  function PrintTemplate(parts: seq<Part>, after: string): string {
    if parts == [] then after
    else match parts[0]
      case Literal(text) => text + PrintTemplate(parts[1..], after)
      case Param(name, _) => "{" + (name + ("}" + PrintTemplate(parts[1..], after)))
  }

  /** Text in which no declaration is complete: it passes through verbatim. */
  predicate Incomplete(tail: string) {
    !HasDeclaration(tail) && '?' !in tail
  }

  // ---- Every URI is translated

  lemma FindSkips(head: string, tail: string, c: char)
    requires c !in head
    ensures Find(head + tail, c) == |head| + Find(tail, c)
    decreases |head|
  {
    if head == "" {
      assert head + tail == tail;
    } else {
      assert (head + tail)[1..] == head[1..] + tail;
      FindSkips(head[1..], tail, c);
    }
  }

  lemma NoDeclaration(lit: string, tail: string)
    requires '<' !in lit && !HasDeclaration(tail)
    ensures !HasDeclaration(lit + tail)
  {
    FindSkips(lit, tail, '<');
    var start := Find(tail, '<');
    if start < |tail| {
      assert (lit + tail)[|lit| + start + 1..] == tail[start + 1..];
    }
  }

  lemma {:induction false} DotsAreDots(n: nat)
    ensures |Dots(n)| == n && forall i :: 0 <= i < n ==> Dots(n)[i] == '.'
  {
    if n > 0 {
      DotsAreDots(n - 1);
    }
  }

  /** Cutting at the first `c` gives back what was put around it, and the other way round. */
  lemma CutAt(head: string, c: char, tail: string)
    requires c !in head
    ensures var s := head + ([c] + tail);
      Find(s, c) == |head| < |s| && s[..|head|] == head && s[|head| + 1..] == tail
  {
    FindSkips(head, [c] + tail, c);
  }

  lemma JoinAt(s: string, i: nat)
    requires i < |s|
    ensures s == s[..i] + ([s[i]] + s[i + 1..])
  {
  }

  lemma DeclarationAt(lit: string, body: string, tail: string)
    requires '<' !in lit && '>' !in body
    ensures var rest := lit + ("<" + (body + (">" + tail)));
      && HasDeclaration(rest) && AfterFirst(rest) == tail
      && FirstSegment(rest) == Segment(lit, TrimDots(body))
  {
    CutAt(lit, '<', body + (">" + tail));
    CutAt(body, '>', tail);
  }

  lemma TranslateStep(rest: string)
    requires HasDeclaration(rest)
    ensures var s := FirstSegment(rest);
      Translate(rest) == s.prefix + ("{" + (s.template + ("}" + Translate(AfterFirst(rest)))))
  {
    var tail := ScanPath(AfterFirst(rest));
    assert ([FirstSegment(rest)] + tail.segments)[1..] == tail.segments;
  }

  lemma TranslateParam(lit: string, name: string, dots: nat, tail: string)
    requires '<' !in lit && WellFormed(Param(name, dots))
    ensures Translate(lit + ("<" + ((name + Dots(dots)) + (">" + tail))))
         == lit + ("{" + (name + ("}" + Translate(tail))))
  {
    DotsAreDots(dots);
    DeclarationAt(lit, name + Dots(dots), tail);
    TrimDotsStrips(name, dots);
    TranslateStep(lit + ("<" + ((name + Dots(dots)) + (">" + tail))));
  }

  /** With literal text already seen, printed parts translate to their template. */
  lemma {:induction false} TranslateParts(lit: string, parts: seq<Part>, tail: string)
    requires '<' !in lit && Incomplete(tail) && forall p :: p in parts ==> WellFormed(p)
    ensures Translate(lit + PrintRocket(parts, tail)) == lit + PrintTemplate(parts, tail)
    decreases |parts|
  {
    if parts == [] {
      NoDeclaration(lit, tail);
    } else {
      var rest := parts[1..];
      assert WellFormed(parts[0]);
      match parts[0] {
        case Literal(text) =>
          Assoc(lit, text, PrintRocket(rest, tail));
          Assoc(lit, text, PrintTemplate(rest, tail));
          TranslateParts(lit + text, rest, tail);
        case Param(name, dots) =>
          TranslateParam(lit, name, dots, PrintRocket(rest, tail));
          TranslateParts("", rest, tail);
          EmptyPrefix(PrintRocket(rest, tail));
          EmptyPrefix(PrintTemplate(rest, tail));
      }
    }
  }

  lemma EmptyPrefix(s: string)
    ensures "" + s == s
  {
  }

  lemma {:induction false} NoQueryInPrint(parts: seq<Part>, tail: string)
    requires forall p :: p in parts ==> WellFormed(p)
    requires '?' !in tail
    ensures '?' !in PrintRocket(parts, tail)
  {
    if parts != [] {
      assert WellFormed(parts[0]);
      if parts[0].Param? {
        DotsAreDots(parts[0].dots);
      }
      NoQueryInPrint(parts[1..], tail);
    }
  }

  /** Every printed route, with any query and any incomplete tail, translates to the template
      printed from the same parts; the query is dropped and the tail passes through. */
  lemma PrintedRouteTranslates(parts: seq<Part>, tail: string, query: string)
    requires Incomplete(tail) && (query == "" || query[0] == '?') && forall p :: p in parts ==> WellFormed(p)
    ensures Translate(PathOf(PrintRocket(parts, tail) + query)) == PrintTemplate(parts, tail)
  {
    var path := PrintRocket(parts, tail);
    NoQueryInPrint(parts, tail);
    FindSkips(path, query, '?');
    assert (path + query)[..|path|] == path;
    TranslateParts("", parts, tail);
    EmptyPrefix(path);
    EmptyPrefix(PrintTemplate(parts, tail));
  }

  lemma {:induction false} DotsSplit(raw: string)
    ensures |TrimDots(raw)| <= |raw| && raw == TrimDots(raw) + Dots(|raw| - |TrimDots(raw)|)
    ensures TrimDots(raw) == "" || TrimDots(raw)[|TrimDots(raw)| - 1] != '.'
  {
    if raw != "" && raw[|raw| - 1] == '.' {
      var short := raw[..|raw| - 1];
      DotsSplit(short);
      Assoc(TrimDots(short), Dots(|short| - |TrimDots(short)|), ".");
      LastApart(raw);
    } else {
      EmptySuffix(raw);
    }
  }

  lemma LastApart(s: string)
    requires s != ""
    ensures s == s[..|s| - 1] + [s[|s| - 1]]
  {
  }

  lemma EmptySuffix(s: string)
    ensures s + "" == s
  {
  }

  lemma SplitAtDeclaration(path: string) returns (lit: string, raw: string, rest: string)
    requires HasDeclaration(path)
    ensures path == lit + ("<" + (raw + (">" + rest))) && '<' !in lit && '>' !in raw && |rest| < |path|
  {
    var start := Find(path, '<');
    var after := path[start + 1..];
    var end := Find(after, '>');
    lit, raw, rest := path[..start], after[..end], after[end + 1..];
    JoinAt(path, start);
    JoinAt(after, end);
  }

  lemma PrintDeclaration(lit: string, raw: string, more: seq<Part>, tail: string) returns (parts: seq<Part>)
    requires '<' !in lit && '?' !in lit && '>' !in raw && '?' !in raw && forall p :: p in more ==> WellFormed(p)
    ensures PrintRocket(parts, tail) == lit + ("<" + (raw + (">" + PrintRocket(more, tail))))
    ensures forall p :: p in parts ==> WellFormed(p)
  {
    DotsSplit(raw);
    var param := Param(TrimDots(raw), |raw| - |TrimDots(raw)|);
    parts := [Literal(lit), param] + more;
    assert parts[1..] == [param] + more && parts[1..][1..] == more;
    assert PrintRocket(parts[1..], tail) == "<" + (raw + (">" + PrintRocket(more, tail)));
  }

  /** Conversely every path is such a print, so the translation is specified on all URIs. */
  lemma {:induction false} EveryPathIsPrinted(path: string) returns (parts: seq<Part>, tail: string)
    requires '?' !in path
    ensures path == PrintRocket(parts, tail)
    ensures Incomplete(tail) && forall p :: p in parts ==> WellFormed(p)
    decreases |path|
  {
    if HasDeclaration(path) {
      var lit, raw, rest := SplitAtDeclaration(path);
      var more;
      more, tail := EveryPathIsPrinted(rest);
      parts := PrintDeclaration(lit, raw, more, tail);
    } else {
      parts, tail := [], path;
    }
  }
}
