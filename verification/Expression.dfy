/** The query language and its two compilations (backend/src/model/expression.rs): the full
    filter, and the filter that hides metadata from visitors of a shared album. */
module Expression {
  import opened Wrappers

  type AlbumId = string

  datatype FilterValue = Value(text: string) | Exists(present: bool)
  datatype AlbumFilterValue = AlbumIs(id: AlbumId) | AlbumExists(present: bool)

  datatype Expr =
    | Or(parts: seq<Expr>)
    | And(parts: seq<Expr>)
    | Not(inner: Expr)
    | Tag(tag: FilterValue)
    | ExtType(kind: string)
    | Ext(ext: string)
    | Model(model: FilterValue)
    | Make(make: FilterValue)
    | PathText(text: string)
    | InAlbum(album: AlbumFilterValue)
    | RootAlbum(root: bool)
    | Any(text: string)
    | ParentAlbum(parent: AlbumId)
    | Trashed(flag: bool)

  // ---- Items

  datatype FileEntry = FileEntry(file: string, isTrashed: bool)

  /** What images and videos share. */
  datatype Media = Media(ext: string, exif: map<string, string>, path: Option<FileEntry>, album: Option<AlbumId>)

  datatype Body = Image(media: Media) | Video(media: Media) | Album(dirPath: string, isTrashed: bool)

  datatype Item = Item(id: string, tags: set<string>, body: Body)

  /** What the full filter asks of the album cache and the image home. */
  datatype Library = Library(
    dirOf: AlbumId -> Option<string>,
    parentDir: string -> Option<string>,
    parentAlbum: string -> Option<AlbumId>)

  // ---- Text

  function LowerChar(c: char): char {
    if 'A' <= c <= 'Z' then ((c as int) + 32) as char else c
  }

  function Lower(s: string): (r: string)
    ensures |r| == |s|
  {
    seq(|s|, i requires 0 <= i < |s| => LowerChar(s[i]))
  }

  predicate FoundAt(text: string, part: string, i: int) {
    0 <= i <= |text| - |part| && text[i..i + |part|] == part
  }

  predicate Contains(text: string, part: string) {
    exists i :: 0 <= i <= |text| && FoundAt(text, part, i)
  }

  predicate ContainsIgnoringCase(text: string, part: string) {
    Contains(Lower(text), Lower(part))
  }

  // ---- The full filter

  predicate MatchesExif(m: Media, key: string, want: FilterValue) {
    match want
    case Value(text) => key in m.exif && ContainsIgnoringCase(m.exif[key], text)
    case Exists(e) => (key in m.exif) == e
  }

  function KindName(b: Body): string {
    match b
    case Image(_) => "image"
    case Video(_) => "video"
    case Album(_, _) => "album"
  }

  /** Free-text search over the fields that stay visible. */
  predicate AnyVisible(b: Body, text: string)
    requires !b.Album?
  {
    || Contains(KindName(b), text)
    || ContainsIgnoringCase(b.media.ext, text)
    || MatchesExif(b.media, "Make", Value(text))
    || MatchesExif(b.media, "Model", Value(text))
  }

  predicate IsTrashed(b: Body, flag: bool) {
    if b.Album? then b.isTrashed == flag else b.media.path.Some? && b.media.path.value.isTrashed == flag
  }

  predicate Matches(lib: Library, e: Expr, d: Item)
    decreases e
  {
    match e
    case Or(parts) => exists i :: 0 <= i < |parts| && Matches(lib, parts[i], d)
    case And(parts) => forall i :: 0 <= i < |parts| ==> Matches(lib, parts[i], d)
    case Not(inner) => !Matches(lib, inner, d)
    case Tag(Value(text)) => text in d.tags
    case Tag(Exists(e)) => (d.tags == {}) != e
    case Trashed(flag) => IsTrashed(d.body, flag)
    case ExtType(kind) => Contains(kind, KindName(d.body))
    case Ext(ext) => !d.body.Album? && ContainsIgnoringCase(d.body.media.ext, ext)
    case Model(want) => !d.body.Album? && MatchesExif(d.body.media, "Model", want)
    case Make(want) => !d.body.Album? && MatchesExif(d.body.media, "Make", want)
    case PathText(text) =>
      !d.body.Album? && d.body.media.path.Some? && ContainsIgnoringCase(d.body.media.path.value.file, text)
    case InAlbum(AlbumIs(id)) =>
      && lib.dirOf(id).Some? && !d.body.Album? && d.body.media.path.Some?
      && lib.parentDir(d.body.media.path.value.file) == lib.dirOf(id)
    case InAlbum(AlbumExists(e)) => !d.body.Album? && d.body.media.album.Some? == e
    case RootAlbum(root) => d.body.Album? && lib.parentAlbum(d.body.dirPath).None? == root
    case ParentAlbum(parent) => d.body.Album? && lib.parentAlbum(d.body.dirPath) == Some(parent)
    case Any(text) =>
      || text in d.tags
      || ContainsIgnoringCase(d.id, text)
      || (if d.body.Album? then ContainsIgnoringCase("album", text)
          else AnyVisible(d.body, text)
               || (d.body.media.path.Some? && ContainsIgnoringCase(d.body.media.path.value.file, text)))
  }

  // ---- The metadata-hiding filter

  predicate MatchesHidden(shared: AlbumId, e: Expr, d: Item)
    decreases e
  {
    match e
    case Or(parts) => exists i :: 0 <= i < |parts| && MatchesHidden(shared, parts[i], d)
    case And(parts) => forall i :: 0 <= i < |parts| ==> MatchesHidden(shared, parts[i], d)
    case Not(inner) => !MatchesHidden(shared, inner, d)
    case InAlbum(AlbumIs(id)) => id == shared && !d.body.Album? && d.body.media.album == Some(id)
    case InAlbum(AlbumExists(e)) => !d.body.Album? && e
    case Tag(_) => false
    case PathText(_) => false
    case RootAlbum(_) => false
    case ParentAlbum(_) => false
    case Trashed(flag) => IsTrashed(d.body, flag)
    case ExtType(kind) => !d.body.Album? && Contains(kind, KindName(d.body))
    case Ext(ext) => !d.body.Album? && ContainsIgnoringCase(d.body.media.ext, ext)
    case Model(want) => !d.body.Album? && MatchesExif(d.body.media, "Model", want)
    case Make(want) => !d.body.Album? && MatchesExif(d.body.media, "Make", want)
    case Any(text) => !d.body.Album? && AnyVisible(d.body, text)
  }

  // ---- Non-interference

  /** All that a visitor may learn about an item. */
  datatype Visible =
    | VisibleAlbum(trashed: bool)
    | VisibleMedia(isImage: bool, ext: string, make: Option<string>, model: Option<string>,
                   liveOrTrashed: Option<bool>, inShared: bool)

  function LowerExif(m: Media, key: string): Option<string> {
    if key in m.exif then Some(Lower(m.exif[key])) else None
  }

  function View(shared: AlbumId, d: Item): Visible {
    match d.body
    case Album(_, trashed) => VisibleAlbum(trashed)
    case _ =>
      var m := d.body.media;
      VisibleMedia(d.body.Image?, Lower(m.ext), LowerExif(m, "Make"), LowerExif(m, "Model"),
                   if m.path.Some? then Some(m.path.value.isTrashed) else None, m.album == Some(shared))
  }

  lemma ExifDependsOnView(a: Media, b: Media, key: string, want: FilterValue)
    requires LowerExif(a, key) == LowerExif(b, key)
    ensures MatchesExif(a, key, want) == MatchesExif(b, key, want)
  {
  }

  lemma {:induction false} LeafDependsOnView(shared: AlbumId, e: Expr, a: Item, b: Item)
    requires View(shared, a) == View(shared, b) && !e.Or? && !e.And? && !e.Not?
    ensures MatchesHidden(shared, e, a) == MatchesHidden(shared, e, b)
  {
    if !a.body.Album? {
      var m, n := a.body.media, b.body.media;
      match e {
        case Make(want) => ExifDependsOnView(m, n, "Make", want);
        case Model(want) => ExifDependsOnView(m, n, "Model", want);
        case Any(text) =>
          ExifDependsOnView(m, n, "Make", Value(text));
          ExifDependsOnView(m, n, "Model", Value(text));
        case _ =>
      }
    }
  }

  /** The hiding filter answers alike on any two items a visitor may not tell apart, however the
      expression nests and negates. */
  lemma {:induction false} HiddenFilterRevealsOnlyView(shared: AlbumId, e: Expr, a: Item, b: Item)
    requires View(shared, a) == View(shared, b)
    ensures MatchesHidden(shared, e, a) == MatchesHidden(shared, e, b)
    decreases e
  {
    match e {
      case Or(parts) =>
        forall i | 0 <= i < |parts| ensures MatchesHidden(shared, parts[i], a) == MatchesHidden(shared, parts[i], b) {
          HiddenFilterRevealsOnlyView(shared, parts[i], a, b);
        }
      case And(parts) =>
        forall i | 0 <= i < |parts| ensures MatchesHidden(shared, parts[i], a) == MatchesHidden(shared, parts[i], b) {
          HiddenFilterRevealsOnlyView(shared, parts[i], a, b);
        }
      case Not(inner) => HiddenFilterRevealsOnlyView(shared, inner, a, b);
      case _ => LeafDependsOnView(shared, e, a, b);
    }
  }

  // ---- The view is exact

  lemma ContainsSelf(s: string)
    ensures Contains(s, s)
  {
    assert FoundAt(s, s, 0);
  }

  lemma ContainsBothWays(a: string, b: string)
    requires Contains(a, b) && Contains(b, a)
    ensures a == b
  {
    var i :| FoundAt(a, b, i);
    assert |a| == |b| && a[0..|b|] == a;
  }

  /** One of two different texts is found in itself but not in the other. */
  lemma Separate(a: string, b: string) returns (t: string)
    requires Lower(a) != Lower(b)
    ensures t == a || t == b
    ensures ContainsIgnoringCase(a, t) != ContainsIgnoringCase(b, t)
  {
    ContainsSelf(Lower(a));
    ContainsSelf(Lower(b));
    if ContainsIgnoringCase(b, a) {
      t := b;
      if ContainsIgnoringCase(a, b) {
        ContainsBothWays(Lower(a), Lower(b));
      }
    } else {
      t := a;
    }
  }

  lemma SeparateExif(a: Media, b: Media, key: string) returns (want: FilterValue)
    requires LowerExif(a, key) != LowerExif(b, key)
    ensures MatchesExif(a, key, want) != MatchesExif(b, key, want)
  {
    if key in a.exif && key in b.exif {
      var t := Separate(a.exif[key], b.exif[key]);
      want := Value(t);
    } else {
      want := Exists(true);
    }
  }

  lemma OnlyOwnKind(kind: string, name: string)
    requires |kind| == |name|
    ensures Contains(kind, name) <==> kind == name
  {
    if Contains(kind, name) {
      var i :| FoundAt(kind, name, i);
      assert kind[0..|name|] == kind;
    } else {
      ContainsSelf(kind);
    }
  }

  lemma DistinguishKinds(shared: AlbumId, a: Item, b: Item) returns (e: Expr)
    requires KindName(a.body) != KindName(b.body)
    ensures MatchesHidden(shared, e, a) != MatchesHidden(shared, e, b)
  {
    var name := if a.body.Album? then KindName(b.body) else KindName(a.body);
    e := ExtType(name);
    OnlyOwnKind(name, KindName(a.body));
    OnlyOwnKind(name, KindName(b.body));
  }

  lemma DistinguishMedia(shared: AlbumId, a: Item, b: Item) returns (e: Expr)
    requires !a.body.Album? && KindName(a.body) == KindName(b.body) && View(shared, a) != View(shared, b)
    ensures MatchesHidden(shared, e, a) != MatchesHidden(shared, e, b)
  {
    var m, n := a.body.media, b.body.media;
    if Lower(m.ext) != Lower(n.ext) {
      var t := Separate(m.ext, n.ext);
      e := Ext(t);
    } else if LowerExif(m, "Make") != LowerExif(n, "Make") {
      var want := SeparateExif(m, n, "Make");
      e := Make(want);
    } else if LowerExif(m, "Model") != LowerExif(n, "Model") {
      var want := SeparateExif(m, n, "Model");
      e := Model(want);
    } else if (m.album == Some(shared)) != (n.album == Some(shared)) {
      e := InAlbum(AlbumIs(shared));
    } else {
      e := Trashed(if m.path.Some? then m.path.value.isTrashed else n.path.value.isTrashed);
    }
  }

  /** Two items have the same view if and only if no expression tells them apart: the hiding filter
      reveals exactly the view, no more and no less. */
  lemma ViewIsExactlyWhatIsRevealed(shared: AlbumId, a: Item, b: Item)
    ensures View(shared, a) == View(shared, b) <==>
      forall e :: MatchesHidden(shared, e, a) == MatchesHidden(shared, e, b)
  {
    if View(shared, a) == View(shared, b) {
      forall e ensures MatchesHidden(shared, e, a) == MatchesHidden(shared, e, b) {
        HiddenFilterRevealsOnlyView(shared, e, a, b);
      }
    } else if KindName(a.body) != KindName(b.body) {
      var e := DistinguishKinds(shared, a, b);
    } else if a.body.Album? {
      assert MatchesHidden(shared, Trashed(true), a) != MatchesHidden(shared, Trashed(true), b);
    } else {
      var e := DistinguishMedia(shared, a, b);
    }
  }

  // ---- Hiding only narrows

  /** An album item, or a media item of the shared album whose stored album agrees with the
      directory its file is in. */
  predicate Consistent(lib: Library, shared: AlbumId, d: Item) {
    d.body.Album? ||
    (&& d.body.media.album == Some(shared) && d.body.media.path.Some? && lib.dirOf(shared).Some?
     && lib.parentDir(d.body.media.path.value.file) == lib.dirOf(shared))
  }

  /** Expressions that hiding does not change, on items of the given kind. */
  predicate Exact(e: Expr, shared: AlbumId, onMedia: bool)
    decreases e
  {
    match e
    case Or(parts) => forall i :: 0 <= i < |parts| ==> Exact(parts[i], shared, onMedia)
    case And(parts) => forall i :: 0 <= i < |parts| ==> Exact(parts[i], shared, onMedia)
    case Not(inner) => Exact(inner, shared, onMedia)
    case Trashed(_) => true
    case Ext(_) => true
    case Model(_) => true
    case Make(_) => true
    case InAlbum(AlbumExists(_)) => true
    case InAlbum(AlbumIs(id)) => id == shared || !onMedia
    case ExtType(_) => onMedia
    case PathText(_) => !onMedia
    case RootAlbum(_) => onMedia
    case ParentAlbum(_) => onMedia
    case _ => false
  }

  /** Negation is applied only where hiding changes nothing; in particular, no negation at all. */
  predicate Positive(e: Expr, shared: AlbumId, onMedia: bool)
    decreases e
  {
    match e
    case Or(parts) => forall i :: 0 <= i < |parts| ==> Positive(parts[i], shared, onMedia)
    case And(parts) => forall i :: 0 <= i < |parts| ==> Positive(parts[i], shared, onMedia)
    case Not(inner) => Exact(inner, shared, onMedia)
    case _ => true
  }

  lemma {:induction false} ExactIsUnchanged(lib: Library, shared: AlbumId, e: Expr, d: Item)
    requires Consistent(lib, shared, d) && Exact(e, shared, !d.body.Album?)
    ensures MatchesHidden(shared, e, d) == Matches(lib, e, d)
    decreases e
  {
    match e {
      case Or(parts) =>
        forall i | 0 <= i < |parts| ensures MatchesHidden(shared, parts[i], d) == Matches(lib, parts[i], d) {
          ExactIsUnchanged(lib, shared, parts[i], d);
        }
      case And(parts) =>
        forall i | 0 <= i < |parts| ensures MatchesHidden(shared, parts[i], d) == Matches(lib, parts[i], d) {
          ExactIsUnchanged(lib, shared, parts[i], d);
        }
      case Not(inner) => ExactIsUnchanged(lib, shared, inner, d);
      case _ =>
    }
  }

  /** For every positive expression, a match by the hiding filter is a match by the full filter. */
  lemma {:induction false} HidingOnlyNarrows(lib: Library, shared: AlbumId, e: Expr, d: Item)
    requires Consistent(lib, shared, d) && Positive(e, shared, !d.body.Album?)
    requires MatchesHidden(shared, e, d)
    ensures Matches(lib, e, d)
    decreases e
  {
    match e {
      case Or(parts) =>
        var i :| 0 <= i < |parts| && MatchesHidden(shared, parts[i], d);
        HidingOnlyNarrows(lib, shared, parts[i], d);
      case And(parts) =>
        forall i | 0 <= i < |parts| ensures Matches(lib, parts[i], d) {
          HidingOnlyNarrows(lib, shared, parts[i], d);
        }
      case Not(inner) => ExactIsUnchanged(lib, shared, inner, d);
      case _ =>
    }
  }

  predicate NoNot(e: Expr)
    decreases e
  {
    match e
    case Or(parts) => forall i :: 0 <= i < |parts| ==> NoNot(parts[i])
    case And(parts) => forall i :: 0 <= i < |parts| ==> NoNot(parts[i])
    case Not(_) => false
    case _ => true
  }

  lemma {:induction false} NoNotIsPositive(e: Expr, shared: AlbumId, onMedia: bool)
    requires NoNot(e)
    ensures Positive(e, shared, onMedia)
    decreases e
  {
    match e {
      case Or(parts) =>
        forall i | 0 <= i < |parts| ensures Positive(parts[i], shared, onMedia) {
          NoNotIsPositive(parts[i], shared, onMedia);
        }
      case And(parts) =>
        forall i | 0 <= i < |parts| ensures Positive(parts[i], shared, onMedia) {
          NoNotIsPositive(parts[i], shared, onMedia);
        }
      case _ =>
    }
  }

  /** Without negation, whatever a visitor's query finds in the shared album the full query finds. */
  lemma {:induction false} VisitorsSeeASubset(lib: Library, shared: AlbumId, e: Expr, d: Item)
    requires NoNot(e) && Consistent(lib, shared, d) && MatchesHidden(shared, e, d)
    ensures Matches(lib, e, d)
  {
    NoNotIsPositive(e, shared, !d.body.Album?);
    HidingOnlyNarrows(lib, shared, e, d);
  }

  // ---- Negating a hidden condition

  /** On a consistent item the condition holds and hiding denies it, so a visitor's negated query finds
      what the full negated query does not. */
  predicate Escapes(lib: Library, shared: AlbumId, e: Expr, d: Item) {
    Consistent(lib, shared, d) && MatchesHidden(shared, Not(e), d) && !Matches(lib, Not(e), d)
  }

  /** A file of the shared album's directory. */
  predicate InSharedDir(lib: Library, shared: AlbumId, file: string) {
    lib.dirOf(shared).Some? && lib.parentDir(file) == lib.dirOf(shared)
  }

  /** The conditions whose negation escapes on some album item. */
  ghost predicate AlbumCanEscape(lib: Library, e: Expr) {
    match e
    case Tag(_) => true
    case Any(_) => true
    case ExtType(kind) => Contains(kind, "album")
    case RootAlbum(root) => exists dir :: lib.parentAlbum(dir).None? == root
    case ParentAlbum(parent) => exists dir :: lib.parentAlbum(dir) == Some(parent)
    case _ => false
  }

  /** The conditions whose negation escapes on some media item of the shared album. */
  ghost predicate MediaCanEscape(lib: Library, shared: AlbumId, e: Expr) {
    match e
    case Tag(_) => exists file :: InSharedDir(lib, shared, file)
    case PathText(text) => exists file :: InSharedDir(lib, shared, file) && ContainsIgnoringCase(file, text)
    case InAlbum(AlbumIs(id)) =>
      id != shared && lib.dirOf(id) == lib.dirOf(shared) && exists file :: InSharedDir(lib, shared, file)
    case Any(text) =>
      !(Contains("image", text) && Contains("video", text)) && exists file :: InSharedDir(lib, shared, file)
    case _ => false
  }

  lemma EscapeMeans(lib: Library, shared: AlbumId, e: Expr, d: Item)
    ensures Escapes(lib, shared, e, d) <==>
      Consistent(lib, shared, d) && Matches(lib, e, d) && !MatchesHidden(shared, e, d)
  {
  }

  function Tagging(e: Expr): set<string> {
    match e
    case Tag(Value(text)) => {text}
    case Tag(Exists(present)) => if present then {"tag"} else {}
    case Any(text) => {text}
    case _ => {}
  }

  lemma AlbumEscape(lib: Library, shared: AlbumId, e: Expr) returns (d: Item)
    requires AlbumCanEscape(lib, e)
    ensures d.body.Album? && Escapes(lib, shared, e, d)
  {
    var dir := "";
    if e.RootAlbum? {
      dir :| lib.parentAlbum(dir).None? == e.root;
    } else if e.ParentAlbum? {
      dir :| lib.parentAlbum(dir) == Some(e.parent);
    }
    d := Item("", Tagging(e), Album(dir, false));
    EscapeMeans(lib, shared, e, d);
  }

  lemma MediaEscape(lib: Library, shared: AlbumId, e: Expr) returns (d: Item)
    requires MediaCanEscape(lib, shared, e)
    ensures !d.body.Album? && Escapes(lib, shared, e, d)
  {
    var file :| InSharedDir(lib, shared, file) && (e.PathText? ==> ContainsIgnoringCase(file, e.text));
    var m := Media("", map[], Some(FileEntry(file, false)), Some(shared));
    var isImage := !(e.Any? && Contains("image", e.text));
    d := Item("", Tagging(e), if isImage then Image(m) else Video(m));
    if e.Any? {
      NothingInEmpty(e.text, KindName(d.body));
    }
    EscapeMeans(lib, shared, e, d);
  }

  /** What a kind does not contain is not empty, so the empty text does not contain it. */
  lemma NothingInEmpty(text: string, kind: string)
    requires !Contains(kind, text)
    ensures !ContainsIgnoringCase("", text)
  {
    if text == "" {
      assert FoundAt(kind, text, 0);
    }
  }

  lemma NoOtherAlbumEscape(lib: Library, shared: AlbumId, e: Expr, d: Item)
    requires !e.Or? && !e.And? && !e.Not? && d.body.Album? && Escapes(lib, shared, e, d)
    ensures AlbumCanEscape(lib, e)
  {
    EscapeMeans(lib, shared, e, d);
  }

  lemma NoOtherMediaEscape(lib: Library, shared: AlbumId, e: Expr, d: Item)
    requires !e.Or? && !e.And? && !e.Not? && !d.body.Album? && Escapes(lib, shared, e, d)
    ensures MediaCanEscape(lib, shared, e)
  {
    EscapeMeans(lib, shared, e, d);
    assert InSharedDir(lib, shared, d.body.media.path.value.file);
  }

  /** For every single condition and either kind of item: its negation shows a visitor something the
      full filter rejects if and only if the table above says so. A tag always escapes; on media a
      free-text search escapes unless its text is part of both kind names, as the empty one is. */
  lemma NegationEscapesIff(lib: Library, shared: AlbumId, e: Expr)
    requires !e.Or? && !e.And? && !e.Not?
    ensures (exists d: Item :: d.body.Album? && Escapes(lib, shared, e, d)) <==> AlbumCanEscape(lib, e)
    ensures (exists d: Item :: !d.body.Album? && Escapes(lib, shared, e, d)) <==> MediaCanEscape(lib, shared, e)
  {
    forall d: Item | Escapes(lib, shared, e, d)
      ensures if d.body.Album? then AlbumCanEscape(lib, e) else MediaCanEscape(lib, shared, e)
    {
      if d.body.Album? {
        NoOtherAlbumEscape(lib, shared, e, d);
      } else {
        NoOtherMediaEscape(lib, shared, e, d);
      }
    }
    if AlbumCanEscape(lib, e) {
      var d := AlbumEscape(lib, shared, e);
    }
    if MediaCanEscape(lib, shared, e) {
      var d := MediaEscape(lib, shared, e);
    }
  }

  /** Negating a tag shows exactly the items that have it, consistent or not. */
  lemma {:induction false} NegatedTagEscapes(lib: Library, shared: AlbumId, d: Item, tag: string)
    ensures MatchesHidden(shared, Not(Tag(Value(tag))), d) && !Matches(lib, Not(Tag(Value(tag))), d) <==> tag in d.tags
  {
    assert Matches(lib, Tag(Value(tag)), d) <==> tag in d.tags;
    assert !MatchesHidden(shared, Tag(Value(tag)), d);
  }

  // ---- What connectives select

  /** The items a query finds. */
  ghost function Found(lib: Library, e: Expr, items: set<Item>): set<Item> {
    set d | d in items && Matches(lib, e, d)
  }

  /** The items a visitor's query finds. */
  ghost function FoundHidden(shared: AlbumId, e: Expr, items: set<Item>): set<Item> {
    set d | d in items && MatchesHidden(shared, e, d)
  }

  lemma OrMatches(lib: Library, shared: AlbumId, a: seq<Expr>, b: seq<Expr>, d: Item)
    ensures Matches(lib, Or(a + b), d) <==> Matches(lib, Or(a), d) || Matches(lib, Or(b), d)
    ensures MatchesHidden(shared, Or(a + b), d) <==>
      MatchesHidden(shared, Or(a), d) || MatchesHidden(shared, Or(b), d)
  {
    assert forall i :: 0 <= i < |a| ==> (a + b)[i] == a[i];
    assert forall i :: 0 <= i < |b| ==> (a + b)[|a| + i] == b[i];
  }

  lemma AndMatches(lib: Library, shared: AlbumId, a: seq<Expr>, b: seq<Expr>, d: Item)
    ensures Matches(lib, And(a + b), d) <==> Matches(lib, And(a), d) && Matches(lib, And(b), d)
    ensures MatchesHidden(shared, And(a + b), d) <==>
      MatchesHidden(shared, And(a), d) && MatchesHidden(shared, And(b), d)
  {
    assert forall i :: 0 <= i < |a| ==> (a + b)[i] == a[i];
    assert forall i :: 0 <= i < |b| ==> (a + b)[|a| + i] == b[i];
  }

  lemma OneMatches(lib: Library, shared: AlbumId, e: Expr, d: Item)
    ensures Matches(lib, Or([e]), d) <==> Matches(lib, e, d)
    ensures Matches(lib, And([e]), d) <==> Matches(lib, e, d)
    ensures MatchesHidden(shared, Or([e]), d) <==> MatchesHidden(shared, e, d)
    ensures MatchesHidden(shared, And([e]), d) <==> MatchesHidden(shared, e, d)
  {
    assert [e][0] == e;
  }

  /** In both filters the connectives are union, intersection and complement of what their parts find;
      of no parts, `Or` finds nothing and `And` everything. */
  lemma ConnectivesAreSetOperations(lib: Library, shared: AlbumId, a: Expr, b: Expr, items: set<Item>)
    ensures Found(lib, Or([a, b]), items) == Found(lib, a, items) + Found(lib, b, items)
    ensures Found(lib, And([a, b]), items) == Found(lib, a, items) * Found(lib, b, items)
    ensures Found(lib, Not(a), items) == items - Found(lib, a, items)
    ensures Found(lib, Or([]), items) == {} && Found(lib, And([]), items) == items
    ensures FoundHidden(shared, Or([a, b]), items) == FoundHidden(shared, a, items) + FoundHidden(shared, b, items)
    ensures FoundHidden(shared, And([a, b]), items) == FoundHidden(shared, a, items) * FoundHidden(shared, b, items)
    ensures FoundHidden(shared, Not(a), items) == items - FoundHidden(shared, a, items)
    ensures FoundHidden(shared, Or([]), items) == {} && FoundHidden(shared, And([]), items) == items
  {
    assert [a] + [b] == [a, b];
    forall d | d in items
      ensures Matches(lib, Or([a, b]), d) <==> Matches(lib, a, d) || Matches(lib, b, d)
      ensures Matches(lib, And([a, b]), d) <==> Matches(lib, a, d) && Matches(lib, b, d)
      ensures MatchesHidden(shared, Or([a, b]), d) <==> MatchesHidden(shared, a, d) || MatchesHidden(shared, b, d)
      ensures MatchesHidden(shared, And([a, b]), d) <==> MatchesHidden(shared, a, d) && MatchesHidden(shared, b, d)
    {
      OrMatches(lib, shared, [a], [b], d);
      AndMatches(lib, shared, [a], [b], d);
      OneMatches(lib, shared, a, d);
      OneMatches(lib, shared, b, d);
    }
  }

  // ---- What each condition selects

  /** `part` is a contiguous piece of `text`. */
  ghost predicate Occurs(part: string, text: string) {
    exists before, after :: text == before + part + after
  }

  lemma ContainsIsOccurs(text: string, part: string)
    ensures Contains(text, part) <==> Occurs(part, text)
  {
    if Contains(text, part) {
      var i :| 0 <= i <= |text| && FoundAt(text, part, i);
      assert text == text[..i] + part + text[i + |part|..];
    }
    if Occurs(part, text) {
      var before, after :| text == before + part + after;
      assert FoundAt(text, part, |before|);
    }
  }

  /** `part` is a contiguous piece of `text` once the ASCII capitals of both are lowered. */
  ghost predicate OccursIgnoringCase(part: string, text: string) {
    Occurs(Lower(part), Lower(text))
  }

  /** Lowering moves exactly the ASCII capitals, each to its own small letter. */
  lemma LowerMeans(s: string, i: nat)
    requires i < |s|
    ensures !('A' <= Lower(s)[i] <= 'Z')
    ensures if 'A' <= s[i] <= 'Z' then Lower(s)[i] as int - 'a' as int == s[i] as int - 'A' as int
            else Lower(s)[i] == s[i]
    ensures Lower(Lower(s)) == Lower(s)
  {
  }

  /** The item with other media data, still an image or still a video. */
  function WithMedia(d: Item, m: Media): Item
    requires !d.body.Album?
  {
    d.(body := if d.body.Image? then Image(m) else Video(m))
  }

  /** Tags are compared whole and as written, on items of every kind. */
  lemma TagSelects(lib: Library, d: Item, tags: set<string>, text: string, present: bool)
    ensures Matches(lib, Tag(Value(text)), d.(tags := tags)) <==> text in tags
    ensures Matches(lib, Tag(Exists(present)), d.(tags := tags)) <==> (tags != {}) == present
  {
  }

  /** An album is trashed or not; a media item is what its file is, and neither without a file. Both
      filters agree on this. */
  lemma TrashedSelects(lib: Library, shared: AlbumId, d: Item, flag: bool, file: string, trashed: bool, dir: string)
    ensures Matches(lib, Trashed(flag), d.(body := Album(dir, trashed))) <==> trashed == flag
    ensures !d.body.Album? ==>
      var m := d.body.media;
      && (Matches(lib, Trashed(flag), WithMedia(d, m.(path := Some(FileEntry(file, trashed))))) <==> trashed == flag)
      && !Matches(lib, Trashed(flag), WithMedia(d, m.(path := None)))
    ensures MatchesHidden(shared, Trashed(flag), d) <==> Matches(lib, Trashed(flag), d)
  {
  }

  /** A kind condition finds the kinds whose names occur in it; hidden, no albums. */
  lemma KindSelects(lib: Library, shared: AlbumId, d: Item, kind: string)
    ensures d.body.Image? ==> (Matches(lib, ExtType(kind), d) <==> Occurs("image", kind))
    ensures d.body.Video? ==> (Matches(lib, ExtType(kind), d) <==> Occurs("video", kind))
    ensures d.body.Album? ==> (Matches(lib, ExtType(kind), d) <==> Occurs("album", kind))
    ensures MatchesHidden(shared, ExtType(kind), d) <==> !d.body.Album? && Matches(lib, ExtType(kind), d)
  {
    ContainsIsOccurs(kind, "image");
    ContainsIsOccurs(kind, "video");
    ContainsIsOccurs(kind, "album");
  }

  /** An extension condition looks at the extension of media only, ignoring case, in both filters. */
  lemma ExtSelects(lib: Library, shared: AlbumId, d: Item, ext: string, text: string)
    ensures d.body.Album? ==> !Matches(lib, Ext(text), d)
    ensures !d.body.Album? ==>
      (Matches(lib, Ext(text), WithMedia(d, d.body.media.(ext := ext))) <==> OccursIgnoringCase(text, ext))
    ensures MatchesHidden(shared, Ext(text), d) <==> Matches(lib, Ext(text), d)
  {
    ContainsIsOccurs(Lower(ext), Lower(text));
  }

  /** An EXIF condition looks at its own entry: its text, ignoring case, or whether it is there. */
  lemma ExifSelects(m: Media, key: string, other: string, value: string, text: string, present: bool, want: FilterValue)
    requires key != other
    ensures var entered, removed := m.(exif := m.exif[key := value]), m.(exif := m.exif - {key});
      && (MatchesExif(entered, key, Value(text)) <==> OccursIgnoringCase(text, value))
      && (MatchesExif(entered, key, Exists(present)) <==> present)
      && !MatchesExif(removed, key, Value(text))
      && (MatchesExif(removed, key, Exists(present)) <==> !present)
      && (MatchesExif(entered, other, want) <==> MatchesExif(m, other, want))
      && (MatchesExif(removed, other, want) <==> MatchesExif(m, other, want))
  {
    ContainsIsOccurs(Lower(value), Lower(text));
  }

  /** Make and Model conditions are EXIF conditions on those two entries, for media only; both filters
      agree. */
  lemma CameraSelects(lib: Library, shared: AlbumId, d: Item, want: FilterValue)
    ensures d.body.Album? ==> !Matches(lib, Make(want), d) && !Matches(lib, Model(want), d)
    ensures !d.body.Album? ==>
      && (Matches(lib, Make(want), d) <==> MatchesExif(d.body.media, "Make", want))
      && (Matches(lib, Model(want), d) <==> MatchesExif(d.body.media, "Model", want))
    ensures MatchesHidden(shared, Make(want), d) <==> Matches(lib, Make(want), d)
    ensures MatchesHidden(shared, Model(want), d) <==> Matches(lib, Model(want), d)
  {
  }

  /** A path condition looks at the file of media only, ignoring case. */
  lemma PathSelects(lib: Library, d: Item, file: string, trashed: bool, text: string)
    ensures d.body.Album? ==> !Matches(lib, PathText(text), d)
    ensures !d.body.Album? ==>
      var m := d.body.media;
      && (Matches(lib, PathText(text), WithMedia(d, m.(path := Some(FileEntry(file, trashed))))) <==>
            OccursIgnoringCase(text, file))
      && !Matches(lib, PathText(text), WithMedia(d, m.(path := None)))
  {
    ContainsIsOccurs(Lower(file), Lower(text));
  }

  /** No two known albums share a directory, as the album cache guarantees. */
  ghost predicate OneAlbumPerDir(lib: Library) {
    forall a, b :: lib.dirOf(a).Some? && lib.dirOf(a) == lib.dirOf(b) ==> a == b
  }

  /** A media item is in the album of the directory its file is directly in, and in no other: its
      stored album plays no part. Without a file, or for an unknown album, it is in none. */
  lemma AlbumSelects(lib: Library, d: Item, id: AlbumId, other: AlbumId, album: Option<AlbumId>, present: bool)
    ensures d.body.Album? || lib.dirOf(id).None? ==> !Matches(lib, InAlbum(AlbumIs(id)), d)
    ensures !d.body.Album? && d.body.media.path.None? ==> !Matches(lib, InAlbum(AlbumIs(id)), d)
    ensures !d.body.Album? && d.body.media.path.Some? && lib.dirOf(id).Some? ==>
      (Matches(lib, InAlbum(AlbumIs(id)), d) <==> lib.parentDir(d.body.media.path.value.file) == lib.dirOf(id))
    ensures OneAlbumPerDir(lib) && Matches(lib, InAlbum(AlbumIs(id)), d) && Matches(lib, InAlbum(AlbumIs(other)), d) ==>
      id == other
    ensures !d.body.Album? ==>
      var stored := WithMedia(d, d.body.media.(album := album));
      && (Matches(lib, InAlbum(AlbumIs(id)), stored) <==> Matches(lib, InAlbum(AlbumIs(id)), d))
      && (Matches(lib, InAlbum(AlbumExists(present)), stored) <==> album.Some? == present)
  {
  }

  /** An album item is a root album or has exactly one parent, never both; a media item has neither. */
  lemma RootOrOneParent(lib: Library, d: Item, a: AlbumId, b: AlbumId)
    ensures d.body.Album? ==>
      (Matches(lib, RootAlbum(true), d) <==> forall p :: !Matches(lib, ParentAlbum(p), d))
    ensures d.body.Album? ==> (Matches(lib, RootAlbum(false), d) <==> !Matches(lib, RootAlbum(true), d))
    ensures d.body.Album? ==> (Matches(lib, ParentAlbum(a), d) <==> lib.parentAlbum(d.body.dirPath) == Some(a))
    ensures Matches(lib, ParentAlbum(a), d) && Matches(lib, ParentAlbum(b), d) ==> a == b
    ensures !d.body.Album? ==>
      !Matches(lib, RootAlbum(true), d) && !Matches(lib, RootAlbum(false), d) && !Matches(lib, ParentAlbum(a), d)
  {
    if d.body.Album? && lib.parentAlbum(d.body.dirPath).Some? {
      assert Matches(lib, ParentAlbum(lib.parentAlbum(d.body.dirPath).value), d);
    }
  }

  /** Free text finds what the single conditions find, and also looks at the id and, as part of it, the
      name of the kind. */
  lemma AnyIsTheUnion(lib: Library, d: Item, text: string)
    ensures Matches(lib, Any(text), d) <==>
      || Matches(lib, Or([Tag(Value(text)), Ext(text), Make(Value(text)), Model(Value(text)), PathText(text)]), d)
      || OccursIgnoringCase(text, d.id)
      || (if d.body.Album? then OccursIgnoringCase(text, "album")
          else Occurs(text, if d.body.Image? then "image" else "video"))
  {
    ContainsIsOccurs(KindName(d.body), text);
    ContainsIsOccurs(Lower("album"), Lower(text));
    ContainsIsOccurs(Lower(d.id), Lower(text));
    FiveMatch(lib, [Tag(Value(text)), Ext(text), Make(Value(text)), Model(Value(text)), PathText(text)], d);
  }

  /** Hidden, it finds what the conditions still visible find, on media only. */
  lemma HiddenAnyIsTheUnion(shared: AlbumId, d: Item, text: string)
    ensures MatchesHidden(shared, Any(text), d) <==>
      || MatchesHidden(shared, Or([Ext(text), Make(Value(text)), Model(Value(text))]), d)
      || (!d.body.Album? && Occurs(text, if d.body.Image? then "image" else "video"))
  {
    ContainsIsOccurs(KindName(d.body), text);
    ThreeMatch(shared, [Ext(text), Make(Value(text)), Model(Value(text))], d);
  }

  lemma FiveMatch(lib: Library, parts: seq<Expr>, d: Item)
    requires |parts| == 5
    ensures Matches(lib, Or(parts), d) <==>
      || Matches(lib, parts[0], d) || Matches(lib, parts[1], d) || Matches(lib, parts[2], d)
      || Matches(lib, parts[3], d) || Matches(lib, parts[4], d)
  {
  }

  lemma ThreeMatch(shared: AlbumId, parts: seq<Expr>, d: Item)
    requires |parts| == 3
    ensures MatchesHidden(shared, Or(parts), d) <==>
      MatchesHidden(shared, parts[0], d) || MatchesHidden(shared, parts[1], d) || MatchesHidden(shared, parts[2], d)
  {
  }

  /** What a visitor may still ask about albums: whether an item is stored in the shared one. Asking for
      any album answers as if every media item had one. */
  lemma HiddenAlbumSelects(shared: AlbumId, d: Item, album: Option<AlbumId>, id: AlbumId, present: bool)
    ensures d.body.Album? ==>
      !MatchesHidden(shared, InAlbum(AlbumIs(id)), d) && !MatchesHidden(shared, InAlbum(AlbumExists(present)), d)
    ensures !d.body.Album? ==>
      var stored := WithMedia(d, d.body.media.(album := album));
      && (MatchesHidden(shared, InAlbum(AlbumIs(id)), stored) <==> id == shared && album == Some(shared))
      && (MatchesHidden(shared, InAlbum(AlbumExists(present)), stored) <==> present)
  {
  }
}
