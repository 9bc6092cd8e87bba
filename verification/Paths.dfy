/** Virtual paths: src/path.rs, and the `checkout_path` test of the command line. */
module Paths {
  // ---- Splitting and joining text -------------------------------------------

  /** One more character in front: a separator opens a part, anything else extends the first. */
  function Prepend(c: char, parts: seq<string>): (r: seq<string>)
    requires |parts| >= 1
    ensures |r| >= 1
  {
    if c == '/' then [""] + parts else [[c] + parts[0]] + parts[1..]
  }

  /** `text.split('/')`. */
  function Split(text: string): (parts: seq<string>)
    ensures |parts| >= 1
  {
    if text == "" then [""] else Prepend(text[0], Split(text[1..]))
  }

  /** `parts.join("/")`. */
  function Join(parts: seq<string>): string {
    if parts == [] then ""
    else if |parts| == 1 then parts[0]
    else parts[0] + "/" + Join(parts[1..])
  }

  predicate SlashFree(parts: seq<string>) {
    forall k | 0 <= k < |parts| :: '/' !in parts[k]
  }

  lemma {:induction false} SplitIsSlashFree(text: string)
    ensures SlashFree(Split(text))
  {
    if text != "" {
      SplitIsSlashFree(text[1..]);
    }
  }

  lemma {:induction false} SplitWord(word: string)
    requires '/' !in word
    ensures Split(word) == [word]
  {
    if word != "" {
      SplitWord(word[1..]);
      assert [word[0]] + word[1..] == word;
    }
  }

  lemma PrependAppend(c: char, parts: seq<string>, more: seq<string>)
    requires |parts| >= 1
    ensures Prepend(c, parts + more) == Prepend(c, parts) + more
  {
    assert (parts + more)[1..] == parts[1..] + more;
  }

  /** Splitting at a separator splits the two sides. */
  lemma {:induction false} SplitConcat(left: string, right: string)
    ensures Split(left + "/" + right) == Split(left) + Split(right)
    decreases |left|
  {
    var text := left + "/" + right;
    if left == "" {
      assert text[1..] == right && text[0] == '/';
      assert Prepend('/', Split(right)) == [""] + Split(right) by { PrependSlash(Split(right)); }
    } else {
      assert text[1..] == left[1..] + "/" + right && text[0] == left[0];
      SplitConcat(left[1..], right);
      PrependAppend(left[0], Split(left[1..]), Split(right));
    }
  }

  lemma PrependSlash(parts: seq<string>)
    requires |parts| >= 1
    ensures Prepend('/', parts) == [""] + parts
  {
  }

  lemma {:induction false} SplitJoin(parts: seq<string>)
    requires parts != [] && SlashFree(parts)
    ensures Split(Join(parts)) == parts
    decreases |parts|
  {
    SplitWord(parts[0]);
    hide Split, Prepend;
    if |parts| > 1 {
      SplitConcat(parts[0], Join(parts[1..]));
      SplitJoin(parts[1..]);
    }
  }

  lemma {:induction false} JoinSplit(text: string)
    ensures Join(Split(text)) == text
  {
    if text != "" {
      var rest := Split(text[1..]);
      JoinSplit(text[1..]);
      if text[0] == '/' {
        assert ([""] + rest)[1..] == rest;
      } else {
        var parts := [[text[0]] + rest[0]] + rest[1..];
        assert parts[1..] == rest[1..];
      }
    }
  }

  // ---- Normalization --------------------------------------------------------

  /** What one path segment does to the segments kept so far; `..` stops at the root. */
  function Visit(kept: seq<string>, segment: string): seq<string> {
    if segment == "" || segment == "." then kept
    else if segment == ".." then if kept == [] then [] else kept[..|kept| - 1]
    else kept + [segment]
  }

  function Resolve(kept: seq<string>, segments: seq<string>): seq<string>
    decreases |segments|
  {
    if segments == [] then kept else Resolve(Visit(kept, segments[0]), segments[1..])
  }

  /** The directory names a path leads through, from the virtual root. */
  function Segments(path: string): seq<string> {
    Resolve([], Split(path))
  }

  function Render(segments: seq<string>): string {
    if segments == [] then "/" else "/" + Join(segments)
  }

  function Normalize(path: string): string {
    Render(Segments(path))
  }

  /** `normalize_path`: the loop pushes to and pops from the kept segments. */
  method NormalizePath(path: string) returns (normalized: string)
    ensures normalized == Normalize(path)
  {
    var parts := Split(path);
    var segments: seq<string> := [];
    for k := 0 to |parts|
      invariant Resolve(segments, parts[k..]) == Segments(path)
    {
      assert parts[k..][1..] == parts[k + 1..];
      var segment := parts[k];
      if segment == "" || segment == "." {
      } else if segment == ".." {
        if segments != [] { segments := segments[..|segments| - 1]; }
      } else {
        segments := segments + [segment];
      }
    }
    assert parts[|parts|..] == [];
    normalized := if segments == [] then "/" else "/" + Join(segments);
  }

  /** A name that stays put under normalization. */
  predicate Plain(name: string) {
    name != "" && name != "." && name != ".." && '/' !in name
  }

  predicate AllPlain(segments: seq<string>) {
    forall k | 0 <= k < |segments| :: Plain(segments[k])
  }

  lemma {:induction false} ResolveIsPlain(kept: seq<string>, segments: seq<string>)
    requires AllPlain(kept) && SlashFree(segments)
    ensures AllPlain(Resolve(kept, segments))
    decreases |segments|
  {
    if segments != [] {
      ResolveIsPlain(Visit(kept, segments[0]), segments[1..]);
    }
  }

  lemma {:induction false} ResolvePlain(kept: seq<string>, segments: seq<string>)
    requires AllPlain(segments)
    ensures Resolve(kept, segments) == kept + segments
    decreases |segments|
  {
    if segments != [] {
      ResolvePlain(kept + [segments[0]], segments[1..]);
      assert kept + [segments[0]] + segments[1..] == kept + segments;
    } else {
      assert kept + segments == kept;
    }
  }

  lemma {:induction false} ResolveConcat(kept: seq<string>, first: seq<string>, second: seq<string>)
    ensures Resolve(kept, first + second) == Resolve(Resolve(kept, first), second)
    decreases |first|
  {
    if first == [] {
      assert first + second == second;
    } else {
      assert (first + second)[1..] == first[1..] + second;
      ResolveConcat(Visit(kept, first[0]), first[1..], second);
    }
  }

  lemma SegmentsPlain(path: string)
    ensures AllPlain(Segments(path))
  {
    SplitIsSlashFree(path);
    ResolveIsPlain([], Split(path));
  }

  lemma SplitRendered(segments: seq<string>)
    requires AllPlain(segments)
    ensures Split(Render(segments)) == if segments == [] then ["", ""] else [""] + segments
  {
    if segments == [] {
      assert Split("") == [""];
      assert "/"[1..] == "";
    } else {
      assert Render(segments)[1..] == Join(segments);
      SplitJoin(segments);
    }
  }

  /** Rendering plain segments and reading them back gives the same segments. */
  lemma SegmentsRendered(segments: seq<string>)
    requires AllPlain(segments)
    ensures Segments(Render(segments)) == segments
  {
    SplitRendered(segments);
    if segments == [] {
      assert Resolve([], ["", ""]) == Resolve([], ["", ""][1..]) == Resolve([], ["", ""][1..][1..]);
    } else {
      assert ([""] + segments)[1..] == segments;
      ResolvePlain([], segments);
    }
  }

  /** Normalization is idempotent, and its result is absolute with plain segments only. */
  lemma NormalizeIdempotent(path: string)
    ensures Normalize(Normalize(path)) == Normalize(path)
    ensures Segments(Normalize(path)) == Segments(path)
  {
    SegmentsPlain(path);
    SegmentsRendered(Segments(path));
  }

  // ---- Taking paths apart ---------------------------------------------------

  function NonEmpty(parts: seq<string>): seq<string> {
    if parts == [] then [] else (if parts[0] == "" then [] else [parts[0]]) + NonEmpty(parts[1..])
  }

  function SplitPath(path: string): seq<string> {
    NonEmpty(Split(Normalize(path)))
  }

  function JoinPath(parts: seq<string>): string {
    Normalize(Join(parts))
  }

  lemma {:induction false} NonEmptyPlain(segments: seq<string>)
    requires AllPlain(segments)
    ensures NonEmpty(segments) == segments
  {
    if segments != [] {
      NonEmptyPlain(segments[1..]);
    }
  }

  lemma SplitPathIsSegments(path: string)
    ensures SplitPath(path) == Segments(path)
  {
    SegmentsPlain(path);
    var segments := Segments(path);
    SplitRendered(segments);
    if segments == [] {
      assert NonEmpty(["", ""]) == NonEmpty(["", ""][1..]) == NonEmpty(["", ""][1..][1..]);
    } else {
      assert ([""] + segments)[1..] == segments;
      NonEmptyPlain(segments);
    }
  }

  lemma NormalizeJoined(segments: seq<string>)
    requires AllPlain(segments)
    ensures Segments(Join(segments)) == segments
  {
    if segments == [] {
      assert Split("") == [""];
      assert Resolve([], [""]) == Resolve([], [""][1..]);
    } else {
      SplitJoin(segments);
      ResolvePlain([], segments);
    }
  }

  /** Joining the split path is normalization. */
  lemma JoinOfSplit(path: string)
    ensures JoinPath(SplitPath(path)) == Normalize(path)
  {
    SplitPathIsSegments(path);
    SegmentsPlain(path);
    NormalizeJoined(Segments(path));
  }

  /** `text.rfind('/')`, or -1. */
  function LastSlash(text: string): (index: int)
    ensures -1 <= index < |text|
  {
    if text == "" then -1
    else if text[|text| - 1] == '/' then |text| - 1
    else LastSlash(text[..|text| - 1])
  }

  function Dirname(path: string): string {
    var normalized := Normalize(path);
    var index := LastSlash(normalized);
    if index <= 0 then "/" else normalized[..index]
  }

  function Basename(path: string): string {
    var normalized := Normalize(path);
    var name := normalized[LastSlash(normalized) + 1..];
    if name == "" then "/" else name
  }

  lemma {:induction false} LastSlashBefore(left: string, word: string)
    requires '/' !in word
    ensures LastSlash(left + "/" + word) == |left|
    decreases |word|
  {
    var text := left + "/" + word;
    if word != "" {
      assert text[..|text| - 1] == left + "/" + word[..|word| - 1];
      LastSlashBefore(left, word[..|word| - 1]);
    }
  }

  lemma {:induction false} JoinSnoc(init: seq<string>, last: string)
    requires init != []
    ensures Join(init + [last]) == Join(init) + "/" + last
    decreases |init|
  {
    var parts := init + [last];
    assert parts[1..] == init[1..] + [last];
    if |init| > 1 {
      JoinSnoc(init[1..], last);
    }
  }

  lemma RenderSnoc(init: seq<string>, last: string)
    ensures Render(init + [last]) == (if init == [] then "" else Render(init)) + "/" + last
  {
    if init == [] {
      assert init + [last] == [last];
    } else {
      JoinSnoc(init, last);
    }
  }

  /** Cutting at the last separator takes a path's last segment off. */
  lemma CutAtLastSlash(left: string, word: string)
    requires '/' !in word
    ensures var text := left + "/" + word;
      LastSlash(text) == |left| && text[..|left|] == left && text[|left| + 1..] == word
  {
    hide LastSlash;
    LastSlashBefore(left, word);
  }

  /** The directory name renders all but the last segment; the base name is the last one. */
  lemma DirnameBasename(path: string)
    ensures var segments := Segments(path);
      if segments == [] then Dirname(path) == "/" && Basename(path) == "/"
      else Dirname(path) == Render(segments[..|segments| - 1]) && Basename(path) == segments[|segments| - 1]
  {
    hide LastSlash, Segments, Join;
    SegmentsPlain(path);
    var segments := Segments(path);
    if segments == [] {
      CutAtLastSlash("", "");
      assert "" + "/" + "" == "/";
    } else {
      var init, last := segments[..|segments| - 1], segments[|segments| - 1];
      var left := if init == [] then "" else Render(init);
      assert segments == init + [last];
      RenderSnoc(init, last);
      CutAtLastSlash(left, last);
    }
  }

  lemma SegmentsOfConcat(left: string, right: string)
    ensures Segments(left + "/" + right) == Resolve(Segments(left), Split(right))
  {
    SplitConcat(left, right);
    ResolveConcat([], Split(left), Split(right));
  }

  lemma DescendInto(init: seq<string>, name: string)
    requires AllPlain(init) && Plain(name)
    ensures Segments(Render(init) + "/" + name) == init + [name]
  {
    SegmentsOfConcat(Render(init), name);
    SegmentsRendered(init);
    SplitWord(name);
    ResolvePlain(init, [name]);
  }

  lemma RootOfRoot()
    ensures Segments("/" + "/" + "/") == []
  {
    SegmentsOfConcat("/", "/");
    SegmentsRendered([]);
    assert Render([]) == "/";
    assert Resolve([], Split("/")) == Segments("/");
  }

  /** Joining the directory name and the base name is normalization. */
  lemma JoinOfDirnameBasename(path: string)
    ensures JoinPath([Dirname(path), Basename(path)]) == Normalize(path)
  {
    hide Segments, Render, Dirname, Basename;
    DirnameBasename(path);
    SegmentsPlain(path);
    var segments, d, b := Segments(path), Dirname(path), Basename(path);
    assert [d, b][1..] == [b];
    assert Join([d, b]) == d + "/" + b;
    if segments == [] {
      RootOfRoot();
    } else {
      var init, last := segments[..|segments| - 1], segments[|segments| - 1];
      DescendInto(init, last);
      assert init + [last] == segments;
    }
  }

  // ---- One segment more ------------------------------------------------------

  /** A path of a single segment. */
  lemma SegmentsOfName(name: string)
    requires '/' !in name
    ensures Segments(name) == if name == "" || name == "." || name == ".." then [] else [name]
  {
    SplitWord(name);
    assert [name][1..] == [];
    assert Resolve([], [name]) == Resolve(Visit([], name), []);
  }

  /** What appending one segment does to any path: nothing for an empty one and for `.`, one
      segment less for `..` except at the root, and one more for every other name. With
      `SegmentsOfName` this determines the segments of every path. */
  lemma SegmentsExtend(path: string, name: string)
    requires '/' !in name
    ensures Segments(path + "/" + name) ==
      if name == "" || name == "." then Segments(path)
      else if name != ".." then Segments(path) + [name]
      else if Segments(path) == [] then []
      else Segments(path)[..|Segments(path)| - 1]
  {
    hide Segments, Split;
    SegmentsOfConcat(path, name);
    SplitWord(name);
    assert [name][1..] == [];
    assert Resolve(Segments(path), [name]) == Resolve(Visit(Segments(path), name), []);
  }

  /** `..` leads to the directory name, and from the root to the root. */
  lemma ParentIsDirname(path: string)
    ensures Normalize(path + "/..") == Dirname(path)
  {
    hide Segments, Dirname;
    SegmentsExtend(path, "..");
    assert path + "/" + ".." == path + "/..";
    DirnameBasename(path);
  }

  // ---- Containment ----------------------------------------------------------

  function HasComponentPrefix(path: string, parent: string): bool {
    || path == parent
    || (parent == "/" && path != "" && path[0] == '/')
    || (parent <= path && |parent| < |path| && path[|parent|] == '/')
  }

  function IsPathInside(path: string, parent: string): bool {
    HasComponentPrefix(Normalize(path), Normalize(parent))
  }

  lemma RenderAppend(a: seq<string>, b: seq<string>)
    requires a != [] && b != []
    ensures Render(a + b) == Render(a) + "/" + Join(b)
  {
    JoinAppend(a, b);
  }

  lemma {:induction false} JoinAppend(a: seq<string>, b: seq<string>)
    requires a != [] && b != []
    ensures Join(a + b) == Join(a) + "/" + Join(b)
    decreases |a|
  {
    assert (a + b)[1..] == a[1..] + b;
    if |a| > 1 {
      JoinAppend(a[1..], b);
    } else {
      assert a[1..] + b == b;
    }
  }

  lemma PrefixRenders(path: seq<string>, parent: seq<string>)
    requires parent <= path
    ensures HasComponentPrefix(Render(path), Render(parent))
  {
    var rest := path[|parent|..];
    assert path == parent + rest;
    if rest == [] {
      assert path == parent;
    } else if parent != [] {
      RenderAppend(parent, rest);
    }
  }

  lemma RenderedPrefix(path: seq<string>, parent: seq<string>, rest: string)
    requires AllPlain(path) && AllPlain(parent) && parent != []
    requires Render(path) == Render(parent) + "/" + rest
    ensures parent <= path
  {
    hide Render, AllPlain, Split;
    SplitRendered(path);
    SplitRendered(parent);
    SplitConcat(Render(parent), rest);
    assert |[""] + parent + Split(rest)| >= 3;
    TailPrefix("", path, parent, Split(rest));
  }

  lemma TailPrefix<T>(head: T, whole: seq<T>, front: seq<T>, back: seq<T>)
    requires [head] + whole == [head] + front + back
    ensures front <= whole
  {
    assert ([head] + whole)[1..] == whole;
    assert ([head] + front + back)[1..] == front + back;
  }

  /** The string test on rendered paths is the prefix relation on their segments. */
  lemma PrefixIffSegments(path: seq<string>, parent: seq<string>)
    requires AllPlain(path) && AllPlain(parent)
    ensures HasComponentPrefix(Render(path), Render(parent)) <==> parent <= path
  {
    hide Plain, Join, Resolve, Split;
    if parent <= path {
      PrefixRenders(path, parent);
    }
    var p, q := Render(path), Render(parent);
    if HasComponentPrefix(p, q) && parent != [] {
      SegmentsRendered(path);
      SegmentsRendered(parent);
      if p != q {
        RenderedIsNotRoot(parent);
        var rest := p[|q| + 1..];
        assert p == q + "/" + rest;
        RenderedPrefix(path, parent, rest);
      }
    }
  }

  lemma RenderedIsNotRoot(segments: seq<string>)
    requires AllPlain(segments) && segments != []
    ensures Render(segments) != "/"
  {
    assert Plain(segments[0]);
    assert |Join(segments)| >= |segments[0]|;
  }

  /** `is_path_inside` is containment of directories: the parent's segments begin the path's. */
  lemma InsideIffSegmentPrefix(path: string, parent: string)
    ensures IsPathInside(path, parent) <==> Segments(parent) <= Segments(path)
  {
    SegmentsPlain(path);
    SegmentsPlain(parent);
    PrefixIffSegments(Segments(path), Segments(parent));
  }

  // ---- The command line's checkout_path -------------------------------------

  predicate CheckoutPathAccepted(path: string) {
    && path != "" && path[0] == '/'
    && '\0' !in path
    && (path == "/" || forall k | 1 <= k < |Split(path)| ::
          Split(path)[k] != "" && Split(path)[k] != "." && Split(path)[k] != "..")
  }

  /** A checkout path is accepted exactly when it has no NUL and normalizes to itself. */
  lemma AcceptedIffCanonical(path: string)
    ensures CheckoutPathAccepted(path) <==> '\0' !in path && Normalize(path) == path
  {
    if path == "/" {
      SegmentsRendered([]);
    } else {
      if CheckoutPathAccepted(path) {
        AcceptedIsFixed(path);
      }
      if Normalize(path) == path {
        SegmentsPlain(path);
        SplitRendered(Segments(path));
      }
    }
  }

  lemma AcceptedIsFixed(path: string)
    requires CheckoutPathAccepted(path) && path != "/"
    ensures Normalize(path) == path
  {
    var segments := Split(path[1..]);
    SplitIsSlashFree(path[1..]);
    assert Split(path) == [""] + segments;
    forall k | 0 <= k < |segments| ensures Plain(segments[k]) {
      assert segments[k] == Split(path)[k + 1];
    }
    assert ([""] + segments)[1..] == segments;
    assert Segments(path) == Resolve([], segments);
    ResolvePlain([], segments);
    assert [] + segments == segments;
    JoinSplit(path[1..]);
    assert path == "/" + path[1..];
  }
}
