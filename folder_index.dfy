/**
 * The build-time folder indexer: walks a directory tree mirrored from an S3
 * bucket, keeps the image files, and produces one `{app, key, url}` entry per
 * image, sorted by app and then by key.
 *
 * The file system is replaced by a tree of directory entries; a missing root
 * directory is `None`. Environment variables are `Option<string>` values,
 * `None` when unset.
 */
module FolderIndex {
  import opened Wrappers
  import Collation

  /**
   * One entry of a directory listing, as `readdirSync` with file types reports
   * it. Listing names never contain '/' and are never "", "." or "..", so
   * joining a relative path with a name is concatenation with a '/'.
   */
  datatype Node =
    | File(name: string)
    | Dir(name: string, children: seq<Node>)
    | Other(name: string)  // symbolic link, socket, ...: neither a file nor a directory

  /** One manifest entry. */
  datatype Entry = Entry(app: string, key: string, url: string)

  /** The environment the indexer reads. */
  datatype Env = Env(bucket: Option<string>, region: Option<string>, publicBaseUrl: Option<string>)

  /** The two fatal exits, in the order they are checked. */
  datatype IndexError = MissingConfig | MissingRoot

  /** An environment value interpolated into a template literal. */
  function Text(v: Option<string>): string
  {
    if v.Some? then v.value else "undefined"
  }

  predicate Configured(env: Env)
  {
    Truthy(env.bucket) && Truthy(env.region)
  }

  /** The base that every entry's URL starts with. */
  function PublicBaseUrl(env: Env): (url: string)
    ensures Truthy(env.publicBaseUrl) ==> url == env.publicBaseUrl.value
    ensures !Truthy(env.publicBaseUrl) && Configured(env) ==>
              url == "https://" + env.bucket.value + ".s3." + env.region.value + ".amazonaws.com"
  {
    if Truthy(env.publicBaseUrl) then env.publicBaseUrl.value
    else "https://" + Text(env.bucket) + ".s3." + Text(env.region) + ".amazonaws.com"
  }

  // ---------------------------------------------------------------------------
  // The extension filter

  const ImageExts: set<string> :=
    {".png", ".jpg", ".jpeg", ".gif", ".webp", ".svg", ".avif", ".bmp", ".tif", ".tiff"}

  function Lower(c: char): char
  {
    if 'A' <= c <= 'Z' then (c as int - 'A' as int + 'a' as int) as char else c
  }

  /** `toLowerCase`, on the letters that can make up an allowed extension. */
  function LowerAscii(s: string): (r: string)
    ensures |r| == |s|
  {
    seq(|s|, i requires 0 <= i < |s| => Lower(s[i]))
  }

  /** Position of the last '.' in `s`, if any. */
  function LastDot(s: string): (r: Option<nat>)
    ensures r.Some? ==> r.value < |s| && s[r.value] == '.'
    ensures r.Some? ==> forall j :: r.value < j < |s| ==> s[j] != '.'
    ensures r.None? ==> forall j :: 0 <= j < |s| ==> s[j] != '.'
  {
    if s == [] then None
    else if s[|s| - 1] == '.' then Some(|s| - 1)
    else LastDot(s[..|s| - 1])
  }

  /**
   * `path.extname` of a listing name: the suffix from the last '.', or "" when
   * there is no dot, when the only candidate dot opens the name (".png"), or
   * for the name "..".
   */
  function Extname(name: string): (ext: string)
    // there is an extension exactly when the last '.' does not open the name, and the name is not ".."
    ensures ext != "" <==>
              name != ".." &&
              exists k :: 0 < k < |name| && name[k] == '.' && forall j :: k < j < |name| ==> name[j] != '.'
    // it is then the suffix from that '.'
    ensures ext != "" ==> |ext| < |name| && ext == name[|name| - |ext|..]
    ensures ext != "" ==> ext[0] == '.' && forall j :: 0 < j < |ext| ==> ext[j] != '.'
    ensures name == ".." ==> ext == ""
  {
    match LastDot(name)
    case None => ""
    case Some(d) => if d == 0 || name == ".." then "" else name[d..]
  }

  /**
   * A name is an image exactly when some suffix after a non-empty stem,
   * lower-cased, is one of the allowed extensions.
   */
  function IsImage(name: string): (r: bool)
    ensures r <==> exists k :: 0 < k < |name| && LowerAscii(name[k..]) in ImageExts
  {
    ExtensionIsImageSuffix(name);
    LowerAscii(Extname(name)) in ImageExts
  }

  lemma ImageExtShape(e: string)
    requires e in ImageExts
    ensures |e| >= 4 && e[0] == '.' && forall j :: 0 < j < |e| ==> e[j] != '.'
  {
  }

  lemma LowerKeepsDots(s: string, j: int)
    requires 0 <= j < |s|
    ensures LowerAscii(s)[j] == '.' <==> s[j] == '.'
  {
  }

  lemma ExtensionIsImageSuffix(name: string)
    ensures LowerAscii(Extname(name)) in ImageExts <==>
            exists k :: 0 < k < |name| && LowerAscii(name[k..]) in ImageExts
  {
    var ext := Extname(name);
    if LowerAscii(ext) in ImageExts {
      assert ext != "";
      var k := |name| - |ext|;
      assert name[k..] == ext;
    }
    if k :| 0 < k < |name| && LowerAscii(name[k..]) in ImageExts {
      var e := LowerAscii(name[k..]);
      ImageExtShape(e);
      LowerKeepsDots(name[k..], 0);
      assert name[k] == '.';
      forall j | k < j < |name|
        ensures name[j] != '.'
      {
        LowerKeepsDots(name[k..], j - k);
      }
      var d := LastDot(name);
      assert d == Some(k);
      assert name != "..";
      assert Extname(name) == name[k..];
    }
  }

  /** Case folding a name never changes whether it is an image. */
  lemma IsImageIgnoresCase(name: string)
    ensures IsImage(LowerAscii(name)) == IsImage(name)
  {
    var low := LowerAscii(name);
    forall k | 0 < k < |name|
      ensures LowerAscii(low[k..]) == LowerAscii(name[k..])
    {
    }
    if IsImage(name) {
      var k :| 0 < k < |name| && LowerAscii(name[k..]) in ImageExts;
      assert LowerAscii(low[k..]) in ImageExts;
    }
    if IsImage(low) {
      var k :| 0 < k < |low| && LowerAscii(low[k..]) in ImageExts;
      assert LowerAscii(name[k..]) in ImageExts;
    }
  }

  /** "A.PNG" and "photo.tar.Jpeg" are images: the match ignores case and uses the last dot. */
  lemma IsImageAccepts()
    ensures IsImage("A.PNG") && IsImage("photo.tar.Jpeg")
  {
    assert LowerAscii("A.PNG"[1..]) == ".png";
    assert LowerAscii("photo.tar.Jpeg"[9..]) == ".jpeg";
  }

  /** A dot that opens the name starts no extension; other extensions are refused. */
  lemma IsImageRejects()
    ensures !IsImage(".png") && !IsImage("notes.txt") && !IsImage("png")
  {
    RejectsDotFile();
    RejectsText();
    RejectsBare();
  }

  lemma RejectsDotFile()
    ensures !IsImage(".png")
  {
    assert ".png"[..3] == ".pn" && ".pn"[..2] == ".p" && ".p"[..1] == ".";
    assert LastDot(".png") == LastDot(".pn") == LastDot(".p") == LastDot(".") == Some(0);
  }

  lemma RejectsText()
    ensures !IsImage("notes.txt")
  {
    assert "notes.txt"[..8] == "notes.tx" && "notes.tx"[..7] == "notes.t" && "notes.t"[..6] == "notes.";
    assert LastDot("notes.txt") == LastDot("notes.tx") == LastDot("notes.t") == LastDot("notes.") == Some(5);
    assert LowerAscii("notes.txt"[5..]) == ".txt";
  }

  lemma RejectsBare()
    ensures !IsImage("png")
  {
    assert "png"[..2] == "pn" && "pn"[..1] == "p" && "p"[..0] == "";
    assert LastDot("png") == None;
  }

  // ---------------------------------------------------------------------------
  // The walk

  /** An entry whose URL is the base URL, a '/', and its key. */
  function EntryFor(app: string, key: string, base: string): Entry
  {
    Entry(app, key, base + "/" + key)
  }

  /** The entries that walking `nodes` under `relBase` produces, in visit order. */
  function Walked(nodes: seq<Node>, relBase: string, app: string, base: string): seq<Entry>
    decreases nodes
  {
    if nodes == [] then []
    else Walked(nodes[..|nodes| - 1], relBase, app, base) + Visit(nodes[|nodes| - 1], relBase, app, base)
  }

  /** The entries one listing entry contributes: a directory is recursed into, never emitted. */
  function Visit(n: Node, relBase: string, app: string, base: string): seq<Entry>
    decreases n
  {
    var rel := relBase + "/" + n.name;
    match n
    case Dir(_, children) => Walked(children, rel, app, base)
    case File(name) => if IsImage(name) then [EntryFor(app, rel, base)] else []
    case Other(_) => []
  }

  /** The names of a chain of directories ending in a file, joined with '/'. */
  function JoinPath(path: seq<string>): string
  {
    if path == [] then ""
    else if |path| == 1 then path[0]
    else path[0] + "/" + JoinPath(path[1..])
  }

  /** `path` leads, through directories of `nodes`, to a regular image file. */
  ghost predicate ImageAt(nodes: seq<Node>, path: seq<string>)
    decreases nodes
  {
    |path| > 0 && exists i :: 0 <= i < |nodes| && NodeHasImage(nodes[i], path)
  }

  ghost predicate NodeHasImage(n: Node, path: seq<string>)
    decreases n
  {
    |path| > 0 && path[0] == n.name &&
    match n
    case File(name) => |path| == 1 && IsImage(name)
    case Dir(_, children) => |path| > 1 && ImageAt(children, path[1..])
    case Other(_) => false
  }

  /** The number of regular image files at any depth of `nodes`. */
  function CountImages(nodes: seq<Node>): nat
    decreases nodes
  {
    if nodes == [] then 0
    else CountImages(nodes[..|nodes| - 1]) + CountNode(nodes[|nodes| - 1])
  }

  function CountNode(n: Node): nat
    decreases n
  {
    match n
    case Dir(_, children) => CountImages(children)
    case File(name) => if IsImage(name) then 1 else 0
    case Other(_) => 0
  }

  /** `walk`: visits the listing in order, recursing into directories and pushing image files. */
  method Walk(nodes: seq<Node>, relBase: string, app: string, base: string) returns (out: seq<Entry>)
    ensures out == Walked(nodes, relBase, app, base)
    decreases nodes
  {
    out := [];
    for i := 0 to |nodes|
      invariant out == Walked(nodes[..i], relBase, app, base)
    {
      assert nodes[..i + 1][..i] == nodes[..i];
      var e := nodes[i];
      var rel := relBase + "/" + e.name;
      match e {
        case Dir(_, children) =>
          var sub := Walk(children, rel, app, base);
          out := out + sub;
        case File(name) =>
          if IsImage(name) {
            out := out + [Entry(app, rel, base + "/" + rel)];
          }
        case Other(_) =>
      }
    }
    assert nodes[..|nodes|] == nodes;
  }

  lemma {:induction false} WalkedAppend(a: seq<Node>, n: Node, relBase: string, app: string, base: string)
    ensures Walked(a + [n], relBase, app, base) == Walked(a, relBase, app, base) + Visit(n, relBase, app, base)
  {
    assert (a + [n])[..|a + [n]| - 1] == a;
  }

  /** Every walked entry carries `app`, its URL is base + "/" + key, and its key names an image file. */
  lemma {:induction false} WalkedSound(nodes: seq<Node>, relBase: string, app: string, base: string, e: Entry)
    requires e in Walked(nodes, relBase, app, base)
    ensures e.app == app && e.url == base + "/" + e.key
    ensures exists p :: ImageAt(nodes, p) && e.key == relBase + "/" + JoinPath(p)
    decreases nodes
  {
    var init, last := nodes[..|nodes| - 1], nodes[|nodes| - 1];
    if e in Walked(init, relBase, app, base) {
      WalkedSound(init, relBase, app, base, e);
      var p :| ImageAt(init, p) && e.key == relBase + "/" + JoinPath(p);
      var i :| 0 <= i < |init| && NodeHasImage(init[i], p);
      assert nodes[i] == init[i];
      assert ImageAt(nodes, p);
    } else {
      VisitSound(last, relBase, app, base, e);
      var p :| NodeHasImage(last, p) && e.key == relBase + "/" + JoinPath(p);
      assert ImageAt(nodes, p);
    }
  }

  lemma {:induction false} VisitSound(n: Node, relBase: string, app: string, base: string, e: Entry)
    requires e in Visit(n, relBase, app, base)
    ensures e.app == app && e.url == base + "/" + e.key
    ensures exists p :: NodeHasImage(n, p) && e.key == relBase + "/" + JoinPath(p)
    decreases n
  {
    match n
    case File(name) =>
      assert IsImage(name) && e == EntryFor(app, relBase + "/" + name, base);
      assert JoinPath([name]) == name;
      assert NodeHasImage(n, [name]);
    case Dir(name, children) =>
      WalkedSound(children, relBase + "/" + name, app, base, e);
      var q :| ImageAt(children, q) && e.key == (relBase + "/" + name) + "/" + JoinPath(q);
      var p := [name] + q;
      assert |q| > 0 && p[1..] == q;
      assert JoinPath(p) == name + "/" + JoinPath(q);
      SlashAssoc(relBase, name, JoinPath(q));
      assert NodeHasImage(n, p);
  }

  /** Every image file reachable in `nodes` is walked, with the path of names as its key. */
  lemma {:induction false} WalkedComplete(nodes: seq<Node>, relBase: string, app: string, base: string, p: seq<string>)
    requires ImageAt(nodes, p)
    ensures EntryFor(app, relBase + "/" + JoinPath(p), base) in Walked(nodes, relBase, app, base)
    decreases nodes
  {
    var i :| 0 <= i < |nodes| && NodeHasImage(nodes[i], p);
    VisitComplete(nodes[i], relBase, app, base, p);
    WalkedContainsVisit(nodes, i, relBase, app, base);
  }

  lemma {:induction false} VisitComplete(n: Node, relBase: string, app: string, base: string, p: seq<string>)
    requires NodeHasImage(n, p)
    ensures EntryFor(app, relBase + "/" + JoinPath(p), base) in Visit(n, relBase, app, base)
    decreases n
  {
    match n
    case File(name) =>
    case Dir(name, children) =>
      var q := p[1..];
      WalkedComplete(children, relBase + "/" + name, app, base, q);
      assert |p| > 1 && JoinPath(p) == name + "/" + JoinPath(q);
      SlashAssoc(relBase, name, JoinPath(q));
  }

  lemma {:induction false} WalkedContainsVisit(nodes: seq<Node>, i: int, relBase: string, app: string, base: string)
    requires 0 <= i < |nodes|
    ensures forall e :: e in Visit(nodes[i], relBase, app, base) ==> e in Walked(nodes, relBase, app, base)
    decreases nodes
  {
    if i < |nodes| - 1 {
      var init := nodes[..|nodes| - 1];
      assert init[i] == nodes[i];
      WalkedContainsVisit(init, i, relBase, app, base);
    }
  }

  lemma SlashAssoc(a: string, b: string, c: string)
    ensures (a + "/" + b) + "/" + c == a + "/" + (b + "/" + c)
  {
  }

  /** The walk emits exactly one entry per image file, at any depth. */
  lemma {:induction false} WalkedCount(nodes: seq<Node>, relBase: string, app: string, base: string)
    ensures |Walked(nodes, relBase, app, base)| == CountImages(nodes)
    decreases nodes
  {
    if nodes != [] {
      WalkedCount(nodes[..|nodes| - 1], relBase, app, base);
      VisitCount(nodes[|nodes| - 1], relBase, app, base);
    }
  }

  lemma {:induction false} VisitCount(n: Node, relBase: string, app: string, base: string)
    ensures |Visit(n, relBase, app, base)| == CountNode(n)
    decreases n
  {
    match n
    case Dir(name, children) => WalkedCount(children, relBase + "/" + name, app, base);
    case File(_) =>
    case Other(_) =>
  }

  // ---------------------------------------------------------------------------
  // The top level

  /** What one entry of the root listing contributes: a folder is walked as its own app; root files are skipped. */
  function TopFolder(n: Node, base: string): seq<Entry>
  {
    match n
    case Dir(folder, children) => Walked(children, folder, folder, base)
    case _ => []
  }

  /** The entries of all top-level folders, in listing order, before the final sort. */
  function Index(listing: seq<Node>, base: string): seq<Entry>
  {
    if listing == [] then []
    else Index(listing[..|listing| - 1], base) + TopFolder(listing[|listing| - 1], base)
  }

  /** The number of regular image files at any depth under the top-level folders. */
  function TopCount(listing: seq<Node>): nat
  {
    if listing == [] then 0
    else TopCount(listing[..|listing| - 1]) +
         match listing[|listing| - 1] case Dir(_, children) => CountImages(children) case _ => 0
  }

  /**
   * Every entry of the index comes from an image file at depth two or more:
   * its app is the top-level folder, its key the '/'-joined chain of names from
   * that folder down (so it starts with app + "/"), and its URL base + "/" + key.
   */
  lemma {:induction false} IndexSound(listing: seq<Node>, base: string, e: Entry)
    requires e in Index(listing, base)
    ensures e.url == base + "/" + e.key
    ensures exists p :: |p| >= 2 && ImageAt(listing, p) && e.app == p[0] &&
                        e.key == JoinPath(p) == e.app + "/" + JoinPath(p[1..])
  {
    var init, last := listing[..|listing| - 1], listing[|listing| - 1];
    if e in Index(init, base) {
      IndexSound(init, base, e);
      var p :| |p| >= 2 && ImageAt(init, p) && e.app == p[0] &&
               e.key == JoinPath(p) == e.app + "/" + JoinPath(p[1..]);
      var i :| 0 <= i < |init| && NodeHasImage(init[i], p);
      assert listing[i] == init[i];
      assert ImageAt(listing, p);
    } else {
      TopFolderSound(last, base, e);
      var p :| |p| >= 2 && NodeHasImage(last, p) && e.app == p[0] &&
               e.key == JoinPath(p) == e.app + "/" + JoinPath(p[1..]);
      assert ImageAt(listing, p);
    }
  }

  lemma TopFolderSound(n: Node, base: string, e: Entry)
    requires e in TopFolder(n, base)
    ensures e.url == base + "/" + e.key
    ensures exists p :: |p| >= 2 && NodeHasImage(n, p) && e.app == p[0] &&
                        e.key == JoinPath(p) == e.app + "/" + JoinPath(p[1..])
  {
    var folder, children := n.name, n.children;
    WalkedSound(children, folder, folder, base, e);
    var q :| ImageAt(children, q) && e.key == folder + "/" + JoinPath(q);
    var p := [folder] + q;
    assert |q| > 0 && p[1..] == q;
    assert JoinPath(p) == folder + "/" + JoinPath(q);
    assert NodeHasImage(n, p);
  }

  /** Every image file under a top-level folder is in the index, tagged with that folder. */
  lemma {:induction false} IndexComplete(listing: seq<Node>, base: string, p: seq<string>)
    requires |p| >= 2 && ImageAt(listing, p)
    ensures EntryFor(p[0], JoinPath(p), base) in Index(listing, base)
  {
    var i :| 0 <= i < |listing| && NodeHasImage(listing[i], p);
    var n := listing[i];
    assert n.Dir? && n.name == p[0];
    var q := p[1..];
    WalkedComplete(n.children, p[0], p[0], base, q);
    assert JoinPath(p) == p[0] + "/" + JoinPath(q);
    IndexContainsTopFolder(listing, i, base);
  }

  lemma {:induction false} IndexContainsTopFolder(listing: seq<Node>, i: int, base: string)
    requires 0 <= i < |listing|
    ensures forall e :: e in TopFolder(listing[i], base) ==> e in Index(listing, base)
  {
    if i < |listing| - 1 {
      var init := listing[..|listing| - 1];
      assert init[i] == listing[i];
      IndexContainsTopFolder(init, i, base);
    }
  }

  /** The index holds exactly one entry per image file under the top-level folders. */
  lemma {:induction false} IndexCount(listing: seq<Node>, base: string)
    ensures |Index(listing, base)| == TopCount(listing)
  {
    if listing != [] {
      IndexCount(listing[..|listing| - 1], base);
      match listing[|listing| - 1]
      case Dir(folder, children) => WalkedCount(children, folder, folder, base);
      case File(_) =>
      case Other(_) =>
    }
  }

  // ---------------------------------------------------------------------------
  // The final sort: by app, then by key

  predicate EntryLe(a: Entry, b: Entry)
  {
    Collation.Lt(a.app, b.app) || (a.app == b.app && Collation.Le(a.key, b.key))
  }

  predicate SortedByAppKey(xs: seq<Entry>)
  {
    forall i, j :: 0 <= i < j < |xs| ==> EntryLe(xs[i], xs[j])
  }

  lemma EntryLeTotal(a: Entry, b: Entry)
    ensures EntryLe(a, b) || EntryLe(b, a)
  {
    Collation.LeTotal(a.app, b.app);
    Collation.LeTotal(a.key, b.key);
  }

  lemma EntryLeReflexive(a: Entry)
    ensures EntryLe(a, a)
  {
    Collation.LeReflexive(a.key);
  }

  lemma EntryLeAntisymmetric(a: Entry, b: Entry)
    requires EntryLe(a, b) && EntryLe(b, a)
    ensures a.app == b.app && a.key == b.key
  {
    if a.app != b.app {
      Collation.LeAntisymmetric(a.app, b.app);
    }
    Collation.LeAntisymmetric(a.key, b.key);
  }

  lemma EntryLeTransitive(a: Entry, b: Entry, c: Entry)
    requires EntryLe(a, b) && EntryLe(b, c)
    ensures EntryLe(a, c)
  {
    Collation.LeReflexive(a.app);
    Collation.LeReflexive(b.app);
    if a.app == b.app == c.app {
      Collation.LeTransitive(a.key, b.key, c.key);
    } else {
      Collation.LeTransitive(a.app, b.app, c.app);
      if a.app == c.app {
        Collation.LeAntisymmetric(a.app, b.app);
      }
    }
  }

  /** Placing `h` before a sorted sequence whose every element it precedes keeps it sorted. */
  lemma ConsSorted(h: Entry, r: seq<Entry>)
    requires SortedByAppKey(r)
    requires forall k :: 0 <= k < |r| ==> EntryLe(h, r[k])
    ensures SortedByAppKey([h] + r)
  {
    var s := [h] + r;
    forall i, j | 0 <= i < j < |s|
      ensures EntryLe(s[i], s[j])
    {
      if i > 0 {
        assert s[i] == r[i - 1] && s[j] == r[j - 1];
      }
    }
  }

  lemma HeadPrecedesInsert(h: Entry, rest: seq<Entry>, x: Entry, r: seq<Entry>)
    requires SortedByAppKey([h] + rest) && EntryLe(h, x)
    requires multiset(r) == multiset(rest) + multiset{x}
    ensures forall k :: 0 <= k < |r| ==> EntryLe(h, r[k])
  {
    forall k | 0 <= k < |r|
      ensures EntryLe(h, r[k])
    {
      assert r[k] in multiset(r);
      if r[k] != x {
        assert r[k] in multiset(rest);
        var j :| 0 <= j < |rest| && rest[j] == r[k];
        assert ([h] + rest)[0] == h && ([h] + rest)[j + 1] == rest[j];
      }
    }
  }

  lemma InsertFront(x: Entry, xs: seq<Entry>)
    requires SortedByAppKey(xs) && xs != [] && EntryLe(x, xs[0])
    ensures SortedByAppKey([x] + xs)
  {
    forall k | 0 <= k < |xs|
      ensures EntryLe(x, xs[k])
    {
      if k > 0 {
        EntryLeTransitive(x, xs[0], xs[k]);
      }
    }
    ConsSorted(x, xs);
  }

  /** Inserts `x` into a sorted sequence. */
  function Insert(x: Entry, xs: seq<Entry>): (r: seq<Entry>)
    requires SortedByAppKey(xs)
    ensures SortedByAppKey(r) && multiset(r) == multiset(xs) + multiset{x}
  {
    if xs == [] then [x]
    else if EntryLe(x, xs[0]) then
      InsertFront(x, xs);
      [x] + xs
    else
      EntryLeTotal(x, xs[0]);
      assert xs == [xs[0]] + xs[1..];
      var r := Insert(x, xs[1..]);
      HeadPrecedesInsert(xs[0], xs[1..], x, r);
      ConsSorted(xs[0], r);
      [xs[0]] + r
  }

  /** `index.sort(...)`: a sorted permutation of its input. */
  function SortEntries(xs: seq<Entry>): (r: seq<Entry>)
    ensures SortedByAppKey(r) && multiset(r) == multiset(xs)
  {
    if xs == [] then []
    else
      assert xs == [xs[0]] + xs[1..];
      Insert(xs[0], SortEntries(xs[1..]))
  }

  /**
   * Two sorted sequences holding the same entries are equal, when every URL is
   * determined by its key: the order leaves no freedom.
   */
  lemma {:induction false} SortedUnique(xs: seq<Entry>, ys: seq<Entry>, base: string)
    requires SortedByAppKey(xs) && SortedByAppKey(ys) && multiset(xs) == multiset(ys)
    requires forall e :: e in xs ==> e.url == base + "/" + e.key
    ensures xs == ys
  {
    assert |xs| == |multiset(xs)| == |ys|;
    if xs != [] {
      SameFirst(xs, ys, base);
      DropFirst(xs, ys);
      assert forall e :: e in xs[1..] ==> e in xs;
      SortedUnique(xs[1..], ys[1..], base);
      assert xs == [xs[0]] + xs[1..] && ys == [ys[0]] + ys[1..];
    }
  }

  /** Sorted, non-empty sequences holding the same entries start with the same entry. */
  lemma SameFirst(xs: seq<Entry>, ys: seq<Entry>, base: string)
    requires SortedByAppKey(xs) && SortedByAppKey(ys) && multiset(xs) == multiset(ys)
    requires forall e :: e in xs ==> e.url == base + "/" + e.key
    requires xs != [] && ys != []
    ensures xs[0] == ys[0]
  {
    var a, b := xs[0], ys[0];
    assert a in multiset(ys) && b in multiset(xs);
    FirstIsLeast(ys, a);
    FirstIsLeast(xs, b);
    EntryLeAntisymmetric(a, b);
    assert b in xs;
  }

  lemma DropFirst(xs: seq<Entry>, ys: seq<Entry>)
    requires multiset(xs) == multiset(ys) && xs != [] && ys != [] && xs[0] == ys[0]
    ensures multiset(xs[1..]) == multiset(ys[1..])
  {
    var a := xs[0];
    assert xs == [a] + xs[1..] && ys == [a] + ys[1..];
    assert multiset(xs) == multiset{a} + multiset(xs[1..]);
    assert multiset(ys) == multiset{a} + multiset(ys[1..]);
    forall z
      ensures multiset(xs[1..])[z] == multiset(ys[1..])[z]
    {
      assert multiset(xs)[z] == multiset{a}[z] + multiset(xs[1..])[z];
      assert multiset(ys)[z] == multiset{a}[z] + multiset(ys[1..])[z];
    }
  }

  lemma FirstIsLeast(xs: seq<Entry>, x: Entry)
    requires SortedByAppKey(xs) && x in xs
    ensures EntryLe(xs[0], x)
  {
    var i :| 0 <= i < |xs| && xs[i] == x;
    if i == 0 {
      EntryLeReflexive(x);
    }
  }

  /** Any sorted permutation of the index is the one `SortEntries` produces. */
  lemma IndexDeterministic(listing: seq<Node>, base: string, xs: seq<Entry>)
    requires SortedByAppKey(xs) && multiset(xs) == multiset(Index(listing, base))
    ensures xs == SortEntries(Index(listing, base))
  {
    var ys := SortEntries(Index(listing, base));
    forall e | e in xs
      ensures e.url == base + "/" + e.key
    {
      assert e in multiset(Index(listing, base));
      IndexSound(listing, base, e);
    }
    SortedUnique(xs, ys, base);
  }

  // ---------------------------------------------------------------------------
  // Visiting order

  /**
   * `b` is `a` with the entries of every listing, at any depth, possibly
   * reordered: the last entry of `a` matches some entry of `b`, and the rest
   * match the rest.
   */
  ghost predicate SameListing(a: seq<Node>, b: seq<Node>)
    decreases a
  {
    if a == [] then b == []
    else exists i :: 0 <= i < |b| && SameTree(a[|a| - 1], b[i]) && SameListing(a[..|a| - 1], b[..i] + b[i + 1..])
  }

  /** `m` is `n` with the entries of every listing below it possibly reordered. */
  ghost predicate SameTree(n: Node, m: Node)
    decreases n
  {
    match n
    case Dir(name, children) => m.Dir? && m.name == name && SameListing(children, m.children)
    case _ => m == n
  }

  /** Taking the `i`th entry out of a listing takes exactly its entries out of the walk. */
  lemma {:induction false} WalkedRemove(b: seq<Node>, i: int, relBase: string, app: string, base: string)
    requires 0 <= i < |b|
    ensures multiset(Walked(b, relBase, app, base)) ==
            multiset(Walked(b[..i] + b[i + 1..], relBase, app, base)) + multiset(Visit(b[i], relBase, app, base))
    decreases |b|
  {
    var init, last := b[..|b| - 1], b[|b| - 1];
    if i == |b| - 1 {
      RemoveLast(b);
    } else {
      WalkedRemove(init, i, relBase, app, base);
      var rest := init[..i] + init[i + 1..];
      RemoveBeforeLast(b, i);
      WalkedAppend(rest, last, relBase, app, base);
      WalkedAppend(init, last, relBase, app, base);
      Shuffle(Walked(init, relBase, app, base), Walked(rest, relBase, app, base),
              Visit(last, relBase, app, base), Visit(b[i], relBase, app, base));
    }
  }

  /** Reordering listings at any depth changes the order of the walked entries, never which ones. */
  lemma {:induction false} WalkedIgnoresOrder(a: seq<Node>, b: seq<Node>, relBase: string, app: string, base: string)
    requires SameListing(a, b)
    ensures multiset(Walked(a, relBase, app, base)) == multiset(Walked(b, relBase, app, base))
    decreases a
  {
    if a != [] {
      var init, last := a[..|a| - 1], a[|a| - 1];
      var i :| 0 <= i < |b| && SameTree(last, b[i]) && SameListing(init, b[..i] + b[i + 1..]);
      WalkedIgnoresOrder(init, b[..i] + b[i + 1..], relBase, app, base);
      VisitIgnoresOrder(last, b[i], relBase, app, base);
      WalkedRemove(b, i, relBase, app, base);
    }
  }

  lemma {:induction false} VisitIgnoresOrder(n: Node, m: Node, relBase: string, app: string, base: string)
    requires SameTree(n, m)
    ensures multiset(Visit(n, relBase, app, base)) == multiset(Visit(m, relBase, app, base))
    decreases n
  {
    match n
    case Dir(name, children) =>
      WalkedIgnoresOrder(children, m.children, relBase + "/" + name, app, base);
    case _ =>
  }

  lemma RemoveLast<T>(b: seq<T>)
    requires b != []
    ensures b[..|b| - 1] + b[|b|..] == b[..|b| - 1]
  {
  }

  /** Removing an entry other than the last commutes with splitting off the last. */
  lemma RemoveBeforeLast<T>(b: seq<T>, i: int)
    requires 0 <= i < |b| - 1
    ensures b == b[..|b| - 1] + [b[|b| - 1]]
    ensures b[..|b| - 1][i] == b[i]
    ensures b[..i] + b[i + 1..] == (b[..|b| - 1][..i] + b[..|b| - 1][i + 1..]) + [b[|b| - 1]]
  {
  }

  lemma Shuffle<T>(w: seq<T>, r: seq<T>, v: seq<T>, u: seq<T>)
    requires multiset(w) == multiset(r) + multiset(u)
    ensures multiset(w + v) == multiset(r + v) + multiset(u)
  {
  }

  lemma IndexAppend(a: seq<Node>, n: Node, base: string)
    ensures Index(a + [n], base) == Index(a, base) + TopFolder(n, base)
  {
    assert (a + [n])[..|a + [n]| - 1] == a;
  }

  /** Taking the `i`th entry out of the root listing takes exactly its entries out of the index. */
  lemma {:induction false} IndexRemove(b: seq<Node>, i: int, base: string)
    requires 0 <= i < |b|
    ensures multiset(Index(b, base)) == multiset(Index(b[..i] + b[i + 1..], base)) + multiset(TopFolder(b[i], base))
    decreases |b|
  {
    var init, last := b[..|b| - 1], b[|b| - 1];
    if i == |b| - 1 {
      RemoveLast(b);
    } else {
      IndexRemove(init, i, base);
      var rest := init[..i] + init[i + 1..];
      RemoveBeforeLast(b, i);
      IndexAppend(rest, last, base);
      IndexAppend(init, last, base);
      Shuffle(Index(init, base), Index(rest, base), TopFolder(last, base), TopFolder(b[i], base));
    }
  }

  /** Reordering listings at any depth gives each top-level folder the same entries. */
  lemma TopFolderIgnoresOrder(n: Node, m: Node, base: string)
    requires SameTree(n, m)
    ensures multiset(TopFolder(n, base)) == multiset(TopFolder(m, base))
  {
    match n
    case Dir(folder, children) =>
      WalkedIgnoresOrder(children, m.children, folder, folder, base);
    case _ =>
  }

  /** Reordering the root listing, and listings below it, permutes the index before the final sort. */
  lemma {:induction false} IndexIgnoresOrder(a: seq<Node>, b: seq<Node>, base: string)
    requires SameListing(a, b)
    ensures multiset(Index(a, base)) == multiset(Index(b, base))
    decreases a
  {
    if a != [] {
      var init, last := a[..|a| - 1], a[|a| - 1];
      var i :| 0 <= i < |b| && SameTree(last, b[i]) && SameListing(init, b[..i] + b[i + 1..]);
      IndexIgnoresOrder(init, b[..i] + b[i + 1..], base);
      TopFolderIgnoresOrder(last, b[i], base);
      IndexRemove(b, i, base);
    }
  }

  lemma {:induction false} SameTreeReflexive(n: Node)
    ensures SameTree(n, n)
    decreases n
  {
    match n
    case Dir(_, children) => SameListingReflexive(children);
    case _ =>
  }

  lemma {:induction false} SameListingReflexive(a: seq<Node>)
    ensures SameListing(a, a)
    decreases a
  {
    if a != [] {
      var i := |a| - 1;
      SameTreeReflexive(a[i]);
      SameListingReflexive(a[..i]);
      assert a[..i] + a[i + 1..] == a[..i];
    }
  }

  /** A listing and any permutation of it, such as the listing sorted by name, are the same listing. */
  lemma {:induction false} PermutedListing(a: seq<Node>, b: seq<Node>)
    requires multiset(a) == multiset(b)
    ensures SameListing(a, b)
    decreases a
  {
    if a == [] {
      assert |b| == |multiset(b)| == 0;
    } else {
      var x := a[|a| - 1];
      assert x in multiset(a);
      var i :| 0 <= i < |b| && b[i] == x;
      RemoveMatching(a, b, i);
      PermutedListing(a[..|a| - 1], b[..i] + b[i + 1..]);
      SameTreeReflexive(x);
    }
  }

  /** Taking the last entry of `a` and an equal entry of `b` out of multiset-equal listings. */
  lemma RemoveMatching(a: seq<Node>, b: seq<Node>, i: int)
    requires multiset(a) == multiset(b) && a != [] && 0 <= i < |b| && b[i] == a[|a| - 1]
    ensures multiset(a[..|a| - 1]) == multiset(b[..i] + b[i + 1..])
  {
    var x, init, rest := b[i], a[..|a| - 1], b[..i] + b[i + 1..];
    assert a == init + [x];
    assert b == b[..i] + [x] + b[i + 1..];
    assert multiset(a) == multiset(init) + multiset{x};
    assert multiset(b) == multiset(rest) + multiset{x};
    forall z
      ensures multiset(init)[z] == multiset(rest)[z]
    {
      assert multiset(a)[z] == multiset(init)[z] + multiset{x}[z];
      assert multiset(b)[z] == multiset(rest)[z] + multiset{x}[z];
    }
  }

  /**
   * Reordering a listing whose entries were already reordered below, such as
   * sorting a listing whose directories were sorted: `a`'s entries correspond
   * one to one to `c`'s, and `b` is a permutation of `c`.
   */
  lemma {:induction false} PermutedSameListing(a: seq<Node>, c: seq<Node>, b: seq<Node>)
    requires |a| == |c| && (forall i :: 0 <= i < |a| ==> SameTree(a[i], c[i]))
    requires multiset(c) == multiset(b)
    ensures SameListing(a, b)
    decreases a
  {
    if a == [] {
      assert |b| == |multiset(b)| == |multiset(c)| == 0;
    } else {
      var x := c[|c| - 1];
      assert x in multiset(c);
      var i :| 0 <= i < |b| && b[i] == x;
      RemoveMatching(c, b, i);
      var a', c' := a[..|a| - 1], c[..|c| - 1];
      assert forall k :: 0 <= k < |a'| ==> a'[k] == a[k] && c'[k] == c[k];
      PermutedSameListing(a', c', b[..i] + b[i + 1..]);
      assert SameTree(a[|a| - 1], b[i]);
    }
  }

  /**
   * Whatever order the folders and files are visited in, at any depth, the
   * sorted index is the same.
   */
  lemma OrderIndependent(a: seq<Node>, b: seq<Node>, base: string)
    requires SameListing(a, b)
    ensures SortEntries(Index(a, base)) == SortEntries(Index(b, base))
  {
    IndexIgnoresOrder(a, b, base);
    IndexDeterministic(b, base, SortEntries(Index(a, base)));
  }

  lemma ScenarioImages()
    ensures IsImage("a.png") && IsImage("c.webp")
  {
    assert LowerAscii("a.png"[1..]) == ".png";
    assert LowerAscii("c.webp"[1..]) == ".webp";
  }

  lemma ScenarioText()
    ensures !IsImage("b.txt")
  {
    assert "b.txt"[..4] == "b.tx" && "b.tx"[..3] == "b.t" && "b.t"[..2] == "b.";
    assert LastDot("b.txt") == LastDot("b.tx") == LastDot("b.t") == LastDot("b.") == Some(1);
    assert Extname("b.txt") == ".txt";
    assert LowerAscii(".txt") == ".txt";
  }

  lemma ScenarioVisits(base: string)
    ensures Visit(File("a.png"), "app1", "app1", base) == [EntryFor("app1", "app1/a.png", base)]
    ensures Visit(File("b.txt"), "app1", "app1", base) == []
    ensures Visit(File("c.webp"), "app2", "app2", base) == [EntryFor("app2", "app2/c.webp", base)]
  {
    ScenarioImages();
    ScenarioText();
    ScenarioKeys();
    VisitImage("app1", "a.png", "app1/a.png", base);
    VisitImage("app2", "c.webp", "app2/c.webp", base);
    VisitSkipped("app1", "b.txt", base);
  }

  lemma ScenarioKeys()
    ensures "app1" + "/" + "a.png" == "app1/a.png"
    ensures "app2" + "/" + "c.webp" == "app2/c.webp"
  {
  }

  lemma VisitImage(app: string, name: string, key: string, base: string)
    requires IsImage(name) && key == app + "/" + name
    ensures Visit(File(name), app, app, base) == [EntryFor(app, key, base)]
  {
  }

  lemma VisitSkipped(app: string, name: string, base: string)
    requires !IsImage(name)
    ensures Visit(File(name), app, app, base) == []
  {
  }

  lemma ScenarioWalk(base: string)
    ensures Walked([File("a.png"), File("b.txt")], "app1", "app1", base) == [EntryFor("app1", "app1/a.png", base)]
    ensures Walked([File("c.webp")], "app2", "app2", base) == [EntryFor("app2", "app2/c.webp", base)]
  {
    ScenarioVisits(base);
    Singleton(File("a.png"), File("b.txt"));
    Singleton(File("c.webp"), File("c.webp"));
    WalkedAppend([], File("a.png"), "app1", "app1", base);
    WalkedAppend([File("a.png")], File("b.txt"), "app1", "app1", base);
    WalkedAppend([], File("c.webp"), "app2", "app2", base);
  }

  lemma Singleton<T>(x: T, y: T)
    ensures [] + [x] == [x] && [x] + [y] == [x, y]
  {
  }

  lemma ScenarioTops(base: string)
    ensures TopFolder(Dir("app1", [File("a.png"), File("b.txt")]), base) == [EntryFor("app1", "app1/a.png", base)]
    ensures TopFolder(Dir("app2", [File("c.webp")]), base) == [EntryFor("app2", "app2/c.webp", base)]
  {
    ScenarioWalk(base);
  }

  lemma ScenarioIndex(base: string)
    ensures Index([Dir("app1", [File("a.png"), File("b.txt")]), Dir("app2", [File("c.webp")])], base) ==
            [EntryFor("app1", "app1/a.png", base), EntryFor("app2", "app2/c.webp", base)]
  {
    var d1, d2 := Dir("app1", [File("a.png"), File("b.txt")]), Dir("app2", [File("c.webp")]);
    ScenarioTops(base);
    Singleton(d1, d2);
    IndexAppend([], d1, base);
    IndexAppend([d1], d2, base);
  }

  lemma ScenarioSorted(base: string)
    ensures SortedByAppKey([EntryFor("app1", "app1/a.png", base), EntryFor("app2", "app2/c.webp", base)])
  {
    assert "app1"[1..] == "pp1" && "pp1"[1..] == "p1" && "p1"[1..] == "1";
    assert "app2"[1..] == "pp2" && "pp2"[1..] == "p2" && "p2"[1..] == "2";
    assert Collation.Lt("app1", "app2");
  }

  /**
   * app1/a.png, app1/b.txt and app2/c.webp give two entries, app1's before
   * app2's; the text file is skipped.
   */
  lemma ThreeFileScenario(base: string)
    ensures var listing := [Dir("app1", [File("a.png"), File("b.txt")]), Dir("app2", [File("c.webp")])];
            SortEntries(Index(listing, base)) ==
              [EntryFor("app1", "app1/a.png", base), EntryFor("app2", "app2/c.webp", base)]
  {
    var listing := [Dir("app1", [File("a.png"), File("b.txt")]), Dir("app2", [File("c.webp")])];
    var expected := [EntryFor("app1", "app1/a.png", base), EntryFor("app2", "app2/c.webp", base)];
    ScenarioIndex(base);
    ScenarioSorted(base);
    IndexDeterministic(listing, base, expected);
  }

  // ---------------------------------------------------------------------------
  // main

  /**
   * `main`: checks the configuration, then the root directory, walks every
   * top-level folder and sorts the result. On an error nothing is produced.
   */
  method BuildIndex(env: Env, root: Option<seq<Node>>) returns (r: Result<seq<Entry>, IndexError>)
    ensures !Configured(env) ==> r == Failure(MissingConfig)
    ensures Configured(env) && root.None? ==> r == Failure(MissingRoot)
    ensures Configured(env) && root.Some? ==>
              && r.Success?
              && SortedByAppKey(r.value)
              && multiset(r.value) == multiset(Index(root.value, PublicBaseUrl(env)))
              && |r.value| == TopCount(root.value)
              && forall e :: e in r.value ==> e.url == PublicBaseUrl(env) + "/" + e.key
  {
    if !Truthy(env.bucket) || !Truthy(env.region) {
      return Failure(MissingConfig);
    }
    if root.None? {
      return Failure(MissingRoot);
    }
    var base := PublicBaseUrl(env);
    var listing := root.value;
    var index: seq<Entry> := [];
    for i := 0 to |listing|
      invariant index == Index(listing[..i], base)
    {
      assert listing[..i + 1][..i] == listing[..i];
      match listing[i] {
        case Dir(folder, children) =>
          var part := Walk(children, folder, folder, base);
          index := index + part;
        case _ =>
      }
    }
    assert listing[..|listing|] == listing;
    IndexCount(listing, base);
    ghost var walked := index;
    index := SortEntries(index);
    assert |index| == |multiset(index)| == |multiset(walked)| == |walked|;
    forall e | e in index
      ensures e.url == base + "/" + e.key
    {
      assert e in multiset(walked);
      IndexSound(listing, base, e);
    }
    r := Success(index);
  }
}
