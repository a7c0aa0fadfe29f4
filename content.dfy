/**
 * The content pipeline: listing the markdown files of a content category,
 * deriving slugs, loading each post, dropping the ones that fail and sorting
 * the rest by date. The file system, the front-matter parser, the markdown
 * renderer and date parsing are inputs to the model.
 */
module Content {
  import opened Wrappers

  // ---------------------------------------------------------------------
  // Data model
  // ---------------------------------------------------------------------

  /** The three keys of the type-to-directory table. */
  datatype PostType = BlogPost | Comparison | Faq

  /** The key as callers spell it; it is also what a post's `type` holds. */
  function TypeKey(t: PostType): string
  {
    match t
    case BlogPost => "blog-post"
    case Comparison => "comparison"
    case Faq => "faq"
  }

  /** Where each category's files live, relative to the working directory. */
  function ContentDirectory(t: PostType): string
  {
    match t
    case BlogPost => "content/blog"
    case Comparison => "content/comparison"
    case Faq => "content/faq"
  }

  /** The front-matter fields a post file declares. */
  datatype FrontMatter = FrontMatter(
    title: string,
    description: string,
    date: Option<string>,
    targetKeywords: Option<seq<string>>,
    ideaName: Option<string>,
    status: Option<string>)

  /** What the front-matter parser yields: the fields and the markdown body. */
  datatype Matter = Matter(data: FrontMatter, content: string)

  datatype Post = Post(
    slug: string,
    title: string,
    description: string,
    postType: string,
    date: Option<string>,
    content: string,
    targetKeywords: Option<seq<string>>,
    ideaName: Option<string>,
    status: Option<string>)

  /** A directory entry: a readable file, or something reading fails on
      (a sub-directory, a file without read permission). */
  datatype Entry = File(text: string) | Unreadable

  datatype DirEntry = DirEntry(name: string, entry: Entry)

  /** A path that exists: a directory with its entries in listing order, or
      something that cannot be listed (a regular file). */
  datatype Directory = Listing(entries: seq<DirEntry>) | NotADirectory

  /** The content directories by path; a path that is not a key does not exist. */
  type FileSystem = map<string, Directory>

  /** The foreign libraries the pipeline calls. `None` stands for a thrown error. */
  datatype Libraries = Libraries(
    parseFrontMatter: string -> Option<Matter>,
    renderMarkdown: string -> Option<string>,
    timestamp: string -> int)

  // ---------------------------------------------------------------------
  // Looking up one post
  // ---------------------------------------------------------------------

  /** The first entry called `name`, if any. */
  function Lookup(entries: seq<DirEntry>, name: string): (r: Option<Entry>)
    ensures r.None? <==> forall k :: 0 <= k < |entries| ==> entries[k].name != name
    ensures r.Some? ==> DirEntry(name, r.value) in entries
  {
    if entries == [] then None
    else if entries[0].name == name then Some(entries[0].entry)
    else Lookup(entries[1..], name)
  }

  /** The existence test and the read of `<directory of t>/<name>`. */
  function ReadFile(fs: FileSystem, t: PostType, name: string): (r: Option<Entry>)
    ensures r.Some? ==> ContentDirectory(t) in fs && fs[ContentDirectory(t)].Listing?
                        && DirEntry(name, r.value) in fs[ContentDirectory(t)].entries
    ensures r.None? <==> ContentDirectory(t) !in fs || fs[ContentDirectory(t)].NotADirectory?
                         || forall k :: 0 <= k < |fs[ContentDirectory(t)].entries| ==> fs[ContentDirectory(t)].entries[k].name != name
  {
    var dir := ContentDirectory(t);
    if dir in fs && fs[dir].Listing? then Lookup(fs[dir].entries, name) else None
  }

  /** The post stored as `<slug>.md` in the directory of `t`, or `None` when the
      file is missing or reading, parsing or rendering it fails. */
  function GetPostBySlug(fs: FileSystem, libs: Libraries, t: PostType, slug: string): (r: Option<Post>)
    ensures r.Some? ==> r.value.slug == slug && r.value.postType == TypeKey(t)
    ensures ReadFile(fs, t, slug + ".md").None? ==> r.None?
  {
    match ReadFile(fs, t, slug + ".md")
    case None => None
    case Some(Unreadable) => None
    case Some(File(text)) =>
      match libs.parseFrontMatter(text)
      case None => None
      case Some(m) =>
        match libs.renderMarkdown(m.content)
        case None => None
        case Some(html) =>
          Some(Post(slug, m.data.title, m.data.description, TypeKey(t), m.data.date,
                    html, m.data.targetKeywords, m.data.ideaName, m.data.status))
  }

  /** A lookup fails exactly when the file is missing or unreadable, or the
      parser or the renderer fails on it; failures never escape as errors. */
  lemma GetPostBySlugFailsOnlyOnFailure(fs: FileSystem, libs: Libraries, t: PostType, slug: string)
    ensures GetPostBySlug(fs, libs, t, slug).None?
        <==> var f := ReadFile(fs, t, slug + ".md");
             f.None? || f.value.Unreadable?
             || libs.parseFrontMatter(f.value.text).None?
             || libs.renderMarkdown(libs.parseFrontMatter(f.value.text).value.content).None?
  {
  }

  /** A loaded post carries the front matter of its file unchanged (absent
      optional fields stay absent) and the rendering of its body. */
  lemma GetPostBySlugCopiesFrontMatter(fs: FileSystem, libs: Libraries, t: PostType, slug: string, text: string)
    requires ReadFile(fs, t, slug + ".md") == Some(File(text))
    requires GetPostBySlug(fs, libs, t, slug).Some?
    ensures var p := GetPostBySlug(fs, libs, t, slug).value;
            var m := libs.parseFrontMatter(text);
            m.Some?
            && p.title == m.value.data.title && p.description == m.value.data.description
            && p.date == m.value.data.date && p.targetKeywords == m.value.data.targetKeywords
            && p.ideaName == m.value.data.ideaName && p.status == m.value.data.status
            && libs.renderMarkdown(m.value.content) == Some(p.content)
  {
  }

  // ---------------------------------------------------------------------
  // File names and slugs
  // ---------------------------------------------------------------------

  /** `name.endsWith('.md')` */
  predicate IsMarkdownName(name: string)
  {
    |name| >= 3 && name[|name| - 3..] == ".md"
  }

  /** `name.replace(/\.md$/, '')`: the trailing ".md" removed, if there is one. */
  function SlugOf(name: string): (slug: string)
    ensures IsMarkdownName(name) ==> slug + ".md" == name
    ensures !IsMarkdownName(name) ==> slug == name
  {
    if IsMarkdownName(name) then name[..|name| - 3] else name
  }

  /** The other half of the round trip: stripping the suffix a slug was given
      returns the slug. */
  lemma SlugOfMarkdownName(slug: string)
    ensures IsMarkdownName(slug + ".md") && SlugOf(slug + ".md") == slug
  {
    assert (slug + ".md")[..|slug|] == slug;
  }

  /** The elements of s that `keep` accepts, in order. */
  function Filter(s: seq<string>, keep: string -> bool): (r: seq<string>)
    ensures |r| <= |s|
    ensures forall x :: x in r <==> x in s && keep(x)
  {
    if s == [] then []
    else (if keep(s[0]) then [s[0]] else []) + Filter(s[1..], keep)
  }

  /** Each kept element occurs as often as in the input; the others not at all. */
  lemma {:induction false} FilterMultiplicity(s: seq<string>, keep: string -> bool, x: string)
    ensures multiset(Filter(s, keep))[x] == if keep(x) then multiset(s)[x] else 0
  {
    if s != [] {
      assert s == [s[0]] + s[1..];
      FilterMultiplicity(s[1..], keep, x);
    }
  }

  /** Filtering goes element by element, so the kept elements stay in their order. */
  lemma {:induction false} FilterConcat(a: seq<string>, b: seq<string>, keep: string -> bool)
    ensures Filter(a + b, keep) == Filter(a, keep) + Filter(b, keep)
  {
    if a != [] {
      var head := if keep(a[0]) then [a[0]] else [];
      assert (a + b)[0] == a[0] && (a + b)[1..] == a[1..] + b;
      FilterConcat(a[1..], b, keep);
      calc {
        Filter(a + b, keep);
        head + Filter(a[1..] + b, keep);
        head + (Filter(a[1..], keep) + Filter(b, keep));
        (head + Filter(a[1..], keep)) + Filter(b, keep);
        Filter(a, keep) + Filter(b, keep);
      }
    } else {
      assert a + b == b;
    }
  }

  /** The entry names in listing order. */
  function EntryNames(entries: seq<DirEntry>): (names: seq<string>)
    ensures |names| == |entries|
    ensures forall k :: 0 <= k < |entries| ==> names[k] == entries[k].name
  {
    seq(|entries|, k requires 0 <= k < |entries| => entries[k].name)
  }

  /** The names of the `.md` entries of a directory, in listing order. */
  function MarkdownNames(entries: seq<DirEntry>): (names: seq<string>)
    ensures |names| <= |entries|
    ensures forall n :: n in names <==> IsMarkdownName(n) && exists k :: 0 <= k < |entries| && entries[k].name == n
    ensures forall n :: multiset(names)[n] == if IsMarkdownName(n) then multiset(EntryNames(entries))[n] else 0
  {
    var all := EntryNames(entries);
    assert forall n :: n in all <==> exists k :: 0 <= k < |entries| && entries[k].name == n by {
      forall n | n in all ensures exists k :: 0 <= k < |entries| && entries[k].name == n {
        var k :| 0 <= k < |all| && all[k] == n;
      }
      forall k | 0 <= k < |entries| ensures entries[k].name in all {
        assert all[k] == entries[k].name;
      }
    }
    var names := Filter(all, IsMarkdownName);
    assert forall n :: multiset(names)[n] == if IsMarkdownName(n) then multiset(all)[n] else 0 by {
      forall n ensures multiset(names)[n] == if IsMarkdownName(n) then multiset(all)[n] else 0 {
        FilterMultiplicity(all, IsMarkdownName, n);
      }
    }
    names
  }

  /** The `.md` names of a listing split in two are those of the first part
      followed by those of the second. */
  lemma MarkdownNamesConcat(a: seq<DirEntry>, b: seq<DirEntry>)
    ensures MarkdownNames(a + b) == MarkdownNames(a) + MarkdownNames(b)
  {
    assert EntryNames(a + b) == EntryNames(a) + EntryNames(b);
    FilterConcat(EntryNames(a), EntryNames(b), IsMarkdownName);
  }

  /** `.filter(Boolean)`: the posts that loaded, in order. */
  function Present(s: seq<Option<Post>>): (r: seq<Post>)
    ensures |r| <= |s|
    ensures forall x :: x in r <==> Some(x) in s
    ensures forall x :: multiset(r)[x] == multiset(s)[Some(x)]
  {
    if s == [] then []
    else
      assert s == [s[0]] + s[1..];
      (if s[0].Some? then [s[0].value] else []) + Present(s[1..])
  }

  /** Dropping failed lookups keeps the loaded posts in their order. */
  lemma {:induction false} PresentConcat(a: seq<Option<Post>>, b: seq<Option<Post>>)
    ensures Present(a + b) == Present(a) + Present(b)
  {
    if a != [] {
      var head := if a[0].Some? then [a[0].value] else [];
      assert (a + b)[0] == a[0] && (a + b)[1..] == a[1..] + b;
      PresentConcat(a[1..], b);
      calc {
        Present(a + b);
        head + Present(a[1..] + b);
        head + (Present(a[1..]) + Present(b));
        (head + Present(a[1..])) + Present(b);
        Present(a) + Present(b);
      }
    } else {
      assert a + b == b;
    }
  }

  // ---------------------------------------------------------------------
  // Ordering by date
  // ---------------------------------------------------------------------

  /** JavaScript truthiness of the date field: present and not empty. */
  predicate HasDate(p: Post)
  {
    p.date.Some? && p.date.value != ""
  }

  function Time(libs: Libraries, p: Post): int
    requires HasDate(p)
  {
    libs.timestamp(p.date.value)
  }

  /** The sort comparator: 0 when either post is undated, otherwise the
      difference of the timestamps, b's minus a's. */
  function CompareByDate(libs: Libraries, a: Post, b: Post): (d: int)
    ensures d != 0 ==> HasDate(a) && HasDate(b)
    ensures HasDate(a) && HasDate(b) ==> (d > 0 <==> Time(libs, a) < Time(libs, b))
    ensures HasDate(a) && HasDate(b) ==> (d == 0 <==> Time(libs, a) == Time(libs, b))
  {
    if !HasDate(a) || !HasDate(b) then 0 else Time(libs, b) - Time(libs, a)
  }

  /** The comparator is antisymmetric. */
  lemma CompareByDateAntisymmetric(libs: Libraries, a: Post, b: Post)
    ensures CompareByDate(libs, a, b) == -CompareByDate(libs, b, a)
  {
  }

  /** With an undated post in the middle the comparator's "equal" is not
      transitive, which is why no order is claimed for mixed lists. */
  lemma UndatedPostBreaksEquivalence(libs: Libraries, a: Post, u: Post, c: Post)
    requires HasDate(a) && HasDate(c) && !HasDate(u)
    requires Time(libs, a) != Time(libs, c)
    ensures CompareByDate(libs, a, u) == 0 && CompareByDate(libs, u, c) == 0
    ensures CompareByDate(libs, a, c) != 0
  {
  }

  predicate AllDated(s: seq<Post>)
  {
    forall k :: 0 <= k < |s| ==> HasDate(s[k])
  }

  /** Newest first. */
  predicate DescendingByDate(libs: Libraries, s: seq<Post>)
    requires AllDated(s)
  {
    forall i, j :: 0 <= i < j < |s| ==> Time(libs, s[i]) >= Time(libs, s[j])
  }

  /** Places p before the first element it does not compare after. */
  function Insert(libs: Libraries, p: Post, s: seq<Post>): (r: seq<Post>)
    ensures multiset(r) == multiset(s) + multiset{p}
  {
    if s == [] then [p]
    else if CompareByDate(libs, p, s[0]) > 0 then
      assert s == [s[0]] + s[1..];
      [s[0]] + Insert(libs, p, s[1..])
    else [p] + s
  }

  /** `sort` with the comparator, as a stable insertion sort; the result is a
      permutation of the input. */
  function SortByDate(libs: Libraries, s: seq<Post>): (r: seq<Post>)
    ensures multiset(r) == multiset(s)
  {
    if s == [] then []
    else
      assert s == [s[0]] + s[1..];
      Insert(libs, s[0], SortByDate(libs, s[1..]))
  }

  /** A dated post no older than anything in a descending list can go in front. */
  lemma DescendingCons(libs: Libraries, x: Post, s: seq<Post>)
    requires HasDate(x) && AllDated(s) && DescendingByDate(libs, s)
    requires forall k :: 0 <= k < |s| ==> Time(libs, x) >= Time(libs, s[k])
    ensures AllDated([x] + s) && DescendingByDate(libs, [x] + s)
  {
    var r := [x] + s;
    forall i, j | 0 <= i < j < |r| ensures Time(libs, r[i]) >= Time(libs, r[j]) {
      assert r[j] == s[j - 1];
      if i > 0 {
        assert r[i] == s[i - 1];
      }
    }
  }

  lemma {:induction false} InsertKeepsDescending(libs: Libraries, p: Post, s: seq<Post>)
    requires HasDate(p) && AllDated(s) && DescendingByDate(libs, s)
    ensures AllDated(Insert(libs, p, s)) && DescendingByDate(libs, Insert(libs, p, s))
  {
    if s == [] {
    } else if CompareByDate(libs, p, s[0]) > 0 {
      var tail := s[1..];
      assert AllDated(tail) && DescendingByDate(libs, tail) by {
        forall k | 0 <= k < |tail| ensures tail[k] == s[k + 1] { }
      }
      var rest := Insert(libs, p, tail);
      InsertKeepsDescending(libs, p, tail);
      forall k | 0 <= k < |rest| ensures Time(libs, s[0]) >= Time(libs, rest[k]) {
        var x := rest[k];
        assert x in multiset(rest);
        if x != p {
          assert x in multiset(tail);
          var m :| 0 <= m < |tail| && tail[m] == x;
          assert s[m + 1] == x;
        }
      }
      DescendingCons(libs, s[0], rest);
    } else {
      forall k | 0 <= k < |s| ensures Time(libs, p) >= Time(libs, s[k]) {
        if k > 0 {
          assert Time(libs, s[0]) >= Time(libs, s[k]);
        }
      }
      DescendingCons(libs, p, s);
    }
  }

  /** When every post is dated, the sorted list is newest first. */
  lemma {:induction false} SortByDateDescending(libs: Libraries, s: seq<Post>)
    requires AllDated(s)
    ensures AllDated(SortByDate(libs, s)) && DescendingByDate(libs, SortByDate(libs, s))
  {
    if s != [] {
      assert AllDated(s[1..]) by {
        forall k | 0 <= k < |s[1..]| ensures HasDate(s[1..][k]) { assert s[1..][k] == s[k + 1]; }
      }
      SortByDateDescending(libs, s[1..]);
      InsertKeepsDescending(libs, s[0], SortByDate(libs, s[1..]));
    }
  }

  /** [x] when x is dated exactly v, otherwise empty. */
  function IfDated(libs: Libraries, x: Post, v: int): seq<Post>
  {
    if HasDate(x) && Time(libs, x) == v then [x] else []
  }

  /** The posts of s dated exactly v, in their order in s. */
  function WithTime(libs: Libraries, s: seq<Post>, v: int): seq<Post>
  {
    if s == [] then [] else IfDated(libs, s[0], v) + WithTime(libs, s[1..], v)
  }

  /** The step of `InsertStable` where p goes past the head of s: the head is
      strictly newer than p, so at most one of the two has date v. */
  lemma InsertStablePast(libs: Libraries, p: Post, s: seq<Post>, v: int)
    requires s != [] && CompareByDate(libs, p, s[0]) > 0
    requires WithTime(libs, Insert(libs, p, s[1..]), v) == IfDated(libs, p, v) + WithTime(libs, s[1..], v)
    ensures WithTime(libs, Insert(libs, p, s), v) == IfDated(libs, p, v) + WithTime(libs, s, v)
  {
    var r := Insert(libs, p, s);
    var rest := Insert(libs, p, s[1..]);
    assert r == [s[0]] + rest;
    assert r[0] == s[0] && r[1..] == rest;
    var head, mine, tail := IfDated(libs, s[0], v), IfDated(libs, p, v), WithTime(libs, s[1..], v);
    assert WithTime(libs, r, v) == head + (mine + tail);
    assert WithTime(libs, s, v) == head + tail;
    if head == [] {
      assert head + (mine + tail) == mine + tail;
      assert head + tail == tail;
    } else {
      assert mine == [];
      assert mine + tail == tail;
      assert mine + (head + tail) == head + tail;
    }
  }

  /** Inserting p leaves the order of the posts of any one date as it was,
      with p ahead of those of its own date. */
  lemma {:induction false} InsertStable(libs: Libraries, p: Post, s: seq<Post>, v: int)
    ensures WithTime(libs, Insert(libs, p, s), v) == IfDated(libs, p, v) + WithTime(libs, s, v)
  {
    if s == [] {
      assert Insert(libs, p, s)[1..] == [];
    } else if CompareByDate(libs, p, s[0]) > 0 {
      InsertStable(libs, p, s[1..], v);
      InsertStablePast(libs, p, s, v);
    } else {
      assert Insert(libs, p, s)[1..] == s;
    }
  }

  /** The sort is stable: posts with equal timestamps keep their input order. */
  lemma {:induction false} SortByDateStable(libs: Libraries, s: seq<Post>, v: int)
    requires AllDated(s)
    ensures WithTime(libs, SortByDate(libs, s), v) == WithTime(libs, s, v)
  {
    if s != [] {
      assert AllDated(s[1..]) by {
        forall k | 0 <= k < |s[1..]| ensures HasDate(s[1..][k]) { assert s[1..][k] == s[k + 1]; }
      }
      SortByDateStable(libs, s[1..], v);
      InsertStable(libs, s[0], SortByDate(libs, s[1..]), v);
    }
  }

  // ---------------------------------------------------------------------
  // Listing a category
  // ---------------------------------------------------------------------

  /** The `.map` step: each name's slug looked up, failures kept as `None`. */
  function LoadAll(fs: FileSystem, libs: Libraries, t: PostType, names: seq<string>): (r: seq<Option<Post>>)
    ensures |r| == |names|
    ensures forall k :: 0 <= k < |names| ==> r[k] == GetPostBySlug(fs, libs, t, SlugOf(names[k]))
  {
    seq(|names|, k requires 0 <= k < |names| => GetPostBySlug(fs, libs, t, SlugOf(names[k])))
  }

  /** All posts of a category: keep the `.md` names, derive each slug, look
      the post up, drop the failed lookups and sort by date. A missing or
      unlistable directory gives the empty list. */
  function GetAllPosts(fs: FileSystem, libs: Libraries, t: PostType): (posts: seq<Post>)
    ensures forall p :: p in posts ==> p.postType == TypeKey(t)
  {
    var dir := ContentDirectory(t);
    if dir !in fs then []
    else match fs[dir]
      case NotADirectory => []
      case Listing(entries) =>
        var loaded := LoadAll(fs, libs, t, MarkdownNames(entries));
        var posts := SortByDate(libs, Present(loaded));
        assert forall p :: p in posts ==> p.postType == TypeKey(t) by {
          forall p | p in posts ensures p.postType == TypeKey(t) {
            assert p in multiset(posts);
            var k :| 0 <= k < |loaded| && loaded[k] == Some(p);
          }
        }
        posts
  }

  /** A category whose directory does not exist, or is not a directory, lists nothing. */
  lemma GetAllPostsWithoutDirectory(fs: FileSystem, libs: Libraries, t: PostType)
    requires ContentDirectory(t) !in fs || fs[ContentDirectory(t)].NotADirectory?
    ensures GetAllPosts(fs, libs, t) == []
  {
  }

  /** Each post is listed exactly as many times as `.md` entries load to it:
      nothing is lost, added or duplicated between lookup and listing. */
  lemma GetAllPostsMultiplicity(fs: FileSystem, libs: Libraries, t: PostType, p: Post)
    requires ContentDirectory(t) in fs && fs[ContentDirectory(t)].Listing?
    ensures var loaded := LoadAll(fs, libs, t, MarkdownNames(fs[ContentDirectory(t)].entries));
            multiset(GetAllPosts(fs, libs, t))[p] == multiset(loaded)[Some(p)]
  {
  }

  /** There are never more posts than `.md` entries. */
  lemma GetAllPostsBounded(fs: FileSystem, libs: Libraries, t: PostType)
    requires ContentDirectory(t) in fs && fs[ContentDirectory(t)].Listing?
    ensures |GetAllPosts(fs, libs, t)| <= |MarkdownNames(fs[ContentDirectory(t)].entries)|
  {
    var loaded := LoadAll(fs, libs, t, MarkdownNames(fs[ContentDirectory(t)].entries));
    assert |multiset(GetAllPosts(fs, libs, t))| == |multiset(Present(loaded))|;
  }

  /** Every listed post is the lookup of an `.md` entry named after its slug,
      and carries the category's type. */
  lemma GetAllPostsSound(fs: FileSystem, libs: Libraries, t: PostType, p: Post)
    requires p in GetAllPosts(fs, libs, t)
    ensures ContentDirectory(t) in fs && fs[ContentDirectory(t)].Listing?
    ensures p.slug + ".md" in MarkdownNames(fs[ContentDirectory(t)].entries)
    ensures GetPostBySlug(fs, libs, t, p.slug) == Some(p)
    ensures p.postType == TypeKey(t)
  {
    var names := MarkdownNames(fs[ContentDirectory(t)].entries);
    var loaded := LoadAll(fs, libs, t, names);
    assert p in multiset(GetAllPosts(fs, libs, t));
    assert Some(p) in loaded;
    var k :| 0 <= k < |names| && loaded[k] == Some(p);
    assert names[k] in names;
  }

  /** Every `.md` entry that loads appears in the listing: one bad file does not
      keep the others out. */
  lemma GetAllPostsComplete(fs: FileSystem, libs: Libraries, t: PostType, name: string)
    requires ContentDirectory(t) in fs && fs[ContentDirectory(t)].Listing?
    requires name in MarkdownNames(fs[ContentDirectory(t)].entries)
    requires GetPostBySlug(fs, libs, t, SlugOf(name)).Some?
    ensures GetPostBySlug(fs, libs, t, SlugOf(name)).value in GetAllPosts(fs, libs, t)
  {
    var names := MarkdownNames(fs[ContentDirectory(t)].entries);
    var loaded := LoadAll(fs, libs, t, names);
    var k :| 0 <= k < |names| && names[k] == name;
    var p := loaded[k].value;
    assert p in Present(loaded);
    assert p in multiset(Present(loaded));
  }

  /** The file behind every `.md` entry is found again from its slug: the
      lookup path `<slug>.md` is the entry's own name. */
  lemma ListedNameIsFound(fs: FileSystem, t: PostType, name: string)
    requires ContentDirectory(t) in fs && fs[ContentDirectory(t)].Listing?
    requires name in MarkdownNames(fs[ContentDirectory(t)].entries)
    ensures ReadFile(fs, t, SlugOf(name) + ".md").Some?
  {
  }

  /** Every `.md` file of the category that loads has a (non-empty) date in its
      front matter. */
  predicate EveryLoadedPostDated(fs: FileSystem, libs: Libraries, t: PostType)
  {
    var dir := ContentDirectory(t);
    dir in fs && fs[dir].Listing? ==>
      forall name :: name in MarkdownNames(fs[dir].entries) ==>
        var r := GetPostBySlug(fs, libs, t, SlugOf(name));
        r.Some? ==> HasDate(r.value)
  }

  /** The posts handed to the sort, when every loaded file is dated, are all dated. */
  lemma LoadedPostsDated(fs: FileSystem, libs: Libraries, t: PostType)
    requires ContentDirectory(t) in fs && fs[ContentDirectory(t)].Listing?
    requires EveryLoadedPostDated(fs, libs, t)
    ensures AllDated(Present(LoadAll(fs, libs, t, MarkdownNames(fs[ContentDirectory(t)].entries))))
  {
    var names := MarkdownNames(fs[ContentDirectory(t)].entries);
    var loaded := LoadAll(fs, libs, t, names);
    var present := Present(loaded);
    forall k | 0 <= k < |present| ensures HasDate(present[k]) {
      assert present[k] in present;
      var m :| 0 <= m < |loaded| && loaded[m] == Some(present[k]);
      assert names[m] in names;
    }
  }

  /** When every file that loads is dated, the listing is newest first. */
  lemma GetAllPostsNewestFirst(fs: FileSystem, libs: Libraries, t: PostType)
    requires EveryLoadedPostDated(fs, libs, t)
    ensures AllDated(GetAllPosts(fs, libs, t)) && DescendingByDate(libs, GetAllPosts(fs, libs, t))
  {
    var dir := ContentDirectory(t);
    if dir in fs && fs[dir].Listing? {
      LoadedPostsDated(fs, libs, t);
      SortByDateDescending(libs, Present(LoadAll(fs, libs, t, MarkdownNames(fs[dir].entries))));
    }
  }

  /** When every file that loads is dated, posts of the same date are listed
      in directory order. */
  lemma GetAllPostsStable(fs: FileSystem, libs: Libraries, t: PostType, v: int)
    requires ContentDirectory(t) in fs && fs[ContentDirectory(t)].Listing?
    requires EveryLoadedPostDated(fs, libs, t)
    ensures var loaded := LoadAll(fs, libs, t, MarkdownNames(fs[ContentDirectory(t)].entries));
            WithTime(libs, GetAllPosts(fs, libs, t), v) == WithTime(libs, Present(loaded), v)
  {
    LoadedPostsDated(fs, libs, t);
    SortByDateStable(libs, Present(LoadAll(fs, libs, t, MarkdownNames(fs[ContentDirectory(t)].entries))), v);
  }
}
