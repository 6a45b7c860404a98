/** `getMimeType`: the content type sent with a static file, chosen from the
    lower-cased extension of its path by a fixed table. */
module Mime {
  import opened Strings

  /** JavaScript's `toLowerCase` on the ASCII letters. */
  function LowerChar(c: char): (d: char)
    ensures ('A' <= c <= 'Z') ==> d as int == c as int + 32
    ensures !('A' <= c <= 'Z') ==> d == c
  {
    if 'A' <= c <= 'Z' then (c as int + 32) as char else c
  }

  function Lower(s: string): (r: string)
    ensures |r| == |s|
    ensures forall i :: 0 <= i < |s| ==> r[i] == LowerChar(s[i])
  {
    if s == [] then [] else [LowerChar(s[0])] + Lower(s[1..])
  }

  lemma LowerAppend(a: string, b: string)
    ensures Lower(a + b) == Lower(a) + Lower(b)
  {
  }

  lemma LowerIdempotent(s: string)
    ensures Lower(Lower(s)) == Lower(s)
  {
  }

  /** The path with its trailing `/` characters removed. */
  function TrimTrailingSlashes(p: string): (r: string)
    ensures r <= p && (r == [] || r[|r| - 1] != '/')
    decreases |p|
  {
    if p != [] && p[|p| - 1] == '/' then TrimTrailingSlashes(p[..|p| - 1]) else p
  }

  /** The final segment of a path with no trailing `/`: what follows its last `/`. */
  function BaseName(p: string): (b: string)
    ensures '/' !in b
    decreases |p|
  {
    if p == [] || p[|p| - 1] == '/' then []
    else BaseName(p[..|p| - 1]) + [p[|p| - 1]]
  }

  /** Index of the last `.` in `b`, or -1 when there is none. */
  function LastDot(b: string): (k: int)
    ensures -1 <= k < |b|
    ensures k >= 0 ==> b[k] == '.'
    ensures forall j :: k < j < |b| ==> b[j] != '.'
    decreases |b|
  {
    if b == [] then -1
    else if b[|b| - 1] == '.' then |b| - 1
    else LastDot(b[..|b| - 1])
  }

  /** The extension of a final path segment as Node's `path.extname` gives
      it: from the last `.` to the end, except that a segment with no dot, a
      segment whose last dot is its first character, and the segment `..`
      have no extension. */
  function SegmentExt(b: string): (e: string)
    ensures e == [] || (e[0] == '.' && '.' !in e[1..] && |e| < |b| && e == b[|b| - |e|..])
    ensures e == [] <==> LastDot(b) <= 0 || b == ".."
    ensures e != [] ==> e == b[LastDot(b)..]
  {
    var k := LastDot(b);
    if k <= 0 || b == ".." then [] else b[k..]
  }

  /** `path.extname(p)` for a POSIX path: trailing slashes are ignored and the
      extension is taken from the final segment. */
  function ExtName(p: string): (e: string)
    ensures e == [] || (e[0] == '.' && '.' !in e[1..] && '/' !in e)
  {
    var base := BaseName(TrimTrailingSlashes(p));
    SegmentExt(base)
  }

  const DefaultType: string := "application/octet-stream"

  /** The extension table of `getMimeType`; `None` for an extension it
      does not list. */
  function TableEntry(ext: string): (m: Option<string>) {
    if ext == ".html" then Some("text/html")
    else if ext == ".css" then Some("text/css")
    else if ext == ".js" then Some("text/javascript")
    else if ext == ".json" then Some("application/json")
    else if ext == ".jpg" then Some("image/jpeg")
    else if ext == ".jpeg" then Some("image/jpeg")
    else if ext == ".png" then Some("image/png")
    else if ext == ".gif" then Some("image/gif")
    else if ext == ".webp" then Some("image/webp")
    else if ext == ".svg" then Some("image/svg+xml")
    else None
  }

  /** Every content type the server can send with a static file. */
  const ContentTypes: set<string> :=
    {"text/html", "text/css", "text/javascript", "application/json", "image/jpeg",
     "image/png", "image/gif", "image/webp", "image/svg+xml", DefaultType}

  /** The table lookup with its fallback: `mimeTypes[ext] || default`. */
  function ContentTypeOf(ext: string): (m: string)
    ensures m in ContentTypes
    ensures m == DefaultType <==> TableEntry(ext) == None
    ensures TableEntry(ext) == Some(m) || m == DefaultType
  {
    match TableEntry(ext)
    case Some(t) => t
    case None => DefaultType
  }

  /** `getMimeType(filename)`: total; the extension is lower-cased before the
      table lookup. */
  function MimeType(filename: string): (m: string)
    ensures m in ContentTypes
  {
    ContentTypeOf(Lower(ExtName(filename)))
  }

  lemma {:induction false} TrimLower(p: string)
    ensures TrimTrailingSlashes(Lower(p)) == Lower(TrimTrailingSlashes(p))
    decreases |p|
  {
    if p != [] {
      var q := p[..|p| - 1];
      assert p == q + [p[|p| - 1]];
      LowerAppend(q, [p[|p| - 1]]);
      assert Lower(p)[..|p| - 1] == Lower(q);
      TrimLower(q);
    }
  }

  lemma {:induction false} BaseLower(p: string)
    ensures BaseName(Lower(p)) == Lower(BaseName(p))
    decreases |p|
  {
    if p != [] {
      var q, c := p[..|p| - 1], p[|p| - 1];
      assert p == q + [c];
      LowerAppend(q, [c]);
      var lp := Lower(p);
      assert lp == Lower(q) + [LowerChar(c)];
      assert lp[..|lp| - 1] == Lower(q) && lp[|lp| - 1] == LowerChar(c);
      if c != '/' {
        BaseLower(q);
        LowerAppend(BaseName(q), [c]);
      }
    }
  }

  lemma LastDotLower(b: string)
    ensures LastDot(Lower(b)) == LastDot(b)
  {
  }

  lemma SegmentExtLower(b: string)
    ensures SegmentExt(Lower(b)) == Lower(SegmentExt(b))
  {
    LastDotLower(b);
    var k := LastDot(b);
    if Lower(b) == ".." {
      assert b == "..";
    }
    if k > 0 && b != ".." {
      assert Lower(b)[k..] == Lower(b[k..]);
    }
  }

  /** Lower-casing a path and taking its extension commute. */
  lemma ExtNameLower(p: string)
    ensures ExtName(Lower(p)) == Lower(ExtName(p))
  {
    TrimLower(p);
    BaseLower(TrimTrailingSlashes(p));
    SegmentExtLower(BaseName(TrimTrailingSlashes(p)));
  }

  /** Extension lookup ignores case: paths equal up to ASCII case get the same
      content type (so `a.JPG` and `a.jpg` do). */
  lemma MimeTypeIgnoresCase(f: string, g: string)
    requires Lower(f) == Lower(g)
    ensures MimeType(f) == MimeType(g)
  {
    ExtNameLower(f);
    ExtNameLower(g);
    LowerIdempotent(ExtName(f));
    LowerIdempotent(ExtName(g));
  }

  /** Both `.jpg` and `.jpeg`, and only they, give `image/jpeg`. */
  lemma ContentTypeJpeg(ext: string)
    ensures ContentTypeOf(ext) == "image/jpeg" <==> ext == ".jpg" || ext == ".jpeg"
  {
  }

  lemma MimeTypeJpeg(f: string)
    ensures MimeType(f) == "image/jpeg" <==> Lower(ExtName(f)) in {".jpg", ".jpeg"}
  {
    ContentTypeJpeg(Lower(ExtName(f)));
  }

  /** The extension of `dir + stem + ext`, where `dir` is empty or ends the
      directory part with `/`, `stem` is a non-empty name without `/`, and
      `ext` is a dot followed by text with no dot or slash, is `ext` (except
      for the name `..`). */
  lemma {:induction false} ExtNameOfFile(dir: string, stem: string, ext: string)
    requires dir == [] || dir[|dir| - 1] == '/'
    requires stem != [] && '/' !in stem
    requires ext != [] && ext[0] == '.' && '.' !in ext[1..] && '/' !in ext
    requires stem + ext != ".."
    ensures ExtName(dir + stem + ext) == ext
  {
    var base := stem + ext;
    var p := dir + base;
    assert dir + stem + ext == p;
    assert p[|p| - 1] == ext[|ext| - 1];
    assert TrimTrailingSlashes(p) == p;
    BaseNameOfSuffix(dir, base);
    LastDotOfExt(stem, ext);
    assert base[|stem|..] == ext;
    assert SegmentExt(base) == ext;
  }

  lemma {:induction false} BaseNameOfSuffix(dir: string, base: string)
    requires dir == [] || dir[|dir| - 1] == '/'
    requires '/' !in base
    ensures BaseName(dir + base) == base
    decreases |base|
  {
    var p := dir + base;
    if base == [] {
      assert p == dir;
    } else {
      var q := base[..|base| - 1];
      assert p[..|p| - 1] == dir + q;
      BaseNameOfSuffix(dir, q);
      assert base == q + [base[|base| - 1]];
    }
  }

  lemma LastDotOfExt(stem: string, ext: string)
    requires ext != [] && ext[0] == '.' && '.' !in ext[1..]
    ensures LastDot(stem + ext) == |stem|
  {
    var b := stem + ext;
    assert b[|stem|] == '.';
    assert forall j :: |stem| < j < |b| ==> b[j] == ext[1..][j - |stem| - 1];
  }

  /** A `.jpg` file is sent as `image/jpeg`. */
  lemma MimeTypeJpg()
    ensures MimeType("a.jpg") == "image/jpeg"
  {
    ExtNameOfFile("", "a", ".jpg");
    assert [] + "a" + ".jpg" == "a.jpg";
    var lower := Lower(".jpg");
    assert lower[0] == '.' && lower[1] == 'j' && lower[2] == 'p' && lower[3] == 'g';
    assert lower == ".jpg";
    ContentTypeJpeg(".jpg");
  }

  /** Upper- and lower-case `.jpg` are both sent as `image/jpeg`. */
  lemma MimeTypeJpgAnyCase()
    ensures MimeType("a.JPG") == MimeType("a.jpg") == "image/jpeg"
  {
    var upper, lower := Lower("a.JPG"), Lower("a.jpg");
    assert upper[0] == 'a' && upper[1] == '.' && upper[2] == 'j' && upper[3] == 'p' && upper[4] == 'g';
    assert lower[0] == 'a' && lower[1] == '.' && lower[2] == 'j' && lower[3] == 'p' && lower[4] == 'g';
    assert upper == lower;
    MimeTypeIgnoresCase("a.JPG", "a.jpg");
    MimeTypeJpg();
  }

  /** A stylesheet under `/public/` is sent as `text/css`. */
  lemma MimeTypeStylesheet()
    ensures MimeType("/public/css/style.css") == "text/css"
  {
    ExtNameOfFile("/public/css/", "style", ".css");
    assert "/public/css/" + "style" + ".css" == "/public/css/style.css";
    assert Lower(".css") == [LowerChar('.'), LowerChar('c'), LowerChar('s'), LowerChar('s')];
  }

  /** Removing the trailing `/` characters of `q + slashes` gives `q` back
      when `q` does not end with `/`. */
  lemma {:induction false} TrimSlashesOf(q: string, slashes: string)
    requires q == [] || q[|q| - 1] != '/'
    requires forall i :: 0 <= i < |slashes| ==> slashes[i] == '/'
    ensures TrimTrailingSlashes(q + slashes) == q
    decreases |slashes|
  {
    if slashes == [] {
      assert q + slashes == q;
    } else {
      var p := q + slashes;
      assert p[..|p| - 1] == q + slashes[..|slashes| - 1];
      TrimSlashesOf(q, slashes[..|slashes| - 1]);
    }
  }

  /** The extension of a path is the extension of its final segment: the
      directory part and any trailing `/` characters play no part. */
  lemma ExtNameOfSegment(dir: string, seg: string, slashes: string)
    requires dir == [] || dir[|dir| - 1] == '/'
    requires seg != [] && '/' !in seg
    requires forall i :: 0 <= i < |slashes| ==> slashes[i] == '/'
    ensures ExtName(dir + seg + slashes) == SegmentExt(seg)
  {
    assert (dir + seg)[|dir + seg| - 1] == seg[|seg| - 1];
    TrimSlashesOf(dir + seg, slashes);
    BaseNameOfSuffix(dir, seg);
  }

  /** A segment has no extension exactly when it has no dot, when its only
      dot is its first character, or when it is `..`. */
  lemma SegmentExtEmpty(b: string)
    ensures SegmentExt(b) == [] <==> '.' !in b || (b[0] == '.' && '.' !in b[1..]) || b == ".."
  {
    var k := LastDot(b);
    if k > 0 {
      assert b[1..][k - 1] == '.';
    } else if k == 0 {
      assert forall i :: 0 <= i < |b| - 1 ==> b[1..][i] == b[i + 1];
    }
  }

  /** A name whose only dot starts it (a hidden file such as `.htaccess`) has
      no extension and is sent as `application/octet-stream`. */
  lemma MimeTypeHidden(dir: string, rest: string, slashes: string)
    requires dir == [] || dir[|dir| - 1] == '/'
    requires '.' !in rest && '/' !in rest
    requires forall i :: 0 <= i < |slashes| ==> slashes[i] == '/'
    ensures ExtName(dir + "." + rest + slashes) == []
    ensures MimeType(dir + "." + rest + slashes) == DefaultType
  {
    var seg := "." + rest;
    assert dir + "." + rest + slashes == dir + seg + slashes;
    assert seg[1..] == rest;
    ExtNameOfSegment(dir, seg, slashes);
    SegmentExtEmpty(seg);
  }

  /** A name without any dot has no extension and is sent as
      `application/octet-stream`. */
  lemma MimeTypeNoDot(dir: string, seg: string, slashes: string)
    requires dir == [] || dir[|dir| - 1] == '/'
    requires seg != [] && '/' !in seg && '.' !in seg
    requires forall i :: 0 <= i < |slashes| ==> slashes[i] == '/'
    ensures ExtName(dir + seg + slashes) == []
    ensures MimeType(dir + seg + slashes) == DefaultType
  {
    ExtNameOfSegment(dir, seg, slashes);
    SegmentExtEmpty(seg);
  }

  /** `/html/.htaccess` is sent as binary. */
  lemma MimeTypeDotFile()
    ensures MimeType("/html/.htaccess") == DefaultType
  {
    var rest := "htaccess";
    assert forall i :: 0 <= i < |rest| ==> rest[i] != '.' && rest[i] != '/';
    MimeTypeHidden("/html/", rest, []);
    assert "/html/" + "." + rest + [] == "/html/.htaccess";
  }
}
