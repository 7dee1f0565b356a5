/** The markdown blog: listing every post of the posts directory, newest
    first (`getAllPosts`), and loading one post by its slug (`getPostBySlug`).
    The file system, the front-matter parser and the reading-time library are
    inputs: the directory is a value, and reading time is a function of the
    post body passed in by the caller. */
module Blog {
  import opened Wrappers
  import opened Strings
  import opened Seqs
  import Sorting

  /** Metadata block of a post file, as the front-matter parser returns it;
      every key may be absent. */
  datatype FrontMatter = FrontMatter(
    title: Option<string>,
    date: Option<string>,
    excerpt: Option<string>,
    tags: Option<seq<string>>)

  /** A post file split into its front-matter and its markdown body. */
  datatype ParsedFile = ParsedFile(data: FrontMatter, content: string)

  /** The posts directory: missing, or present with its entry names (in the
      order the listing returns them) and the files that read and parse.
      A name without an entry in `files` cannot be read or parsed. */
  datatype PostsDirectory =
    | Missing
    | Present(names: seq<string>, files: map<string, ParsedFile>)

  /** `BlogPost`: `title` and `date` are carried over as they were found,
      absent included; `excerpt` and `tags` have their defaults filled in. */
  datatype BlogPost = BlogPost(
    slug: string,
    title: Option<string>,
    date: Option<string>,
    excerpt: string,
    content: string,
    readingTime: string,
    tags: seq<string>)

  /** `getAllPosts` does not catch: a post file that cannot be read or
      parsed makes the whole listing throw. */
  datatype LoadError = ReadFailed(fileName: string)

  const Extension: string := ".md"

  /** `fileName.endsWith('.md')` */
  predicate IsMarkdown(fileName: string) {
    EndsWith(fileName, Extension)
  }

  /** `fileName.replace(/\.md$/, '')`: removes one `.md` at the very end of
      the name, and leaves any other name as it is. */
  function StripExtension(fileName: string): (slug: string)
    ensures IsMarkdown(fileName) ==> slug + Extension == fileName
    ensures !IsMarkdown(fileName) ==> slug == fileName
  {
    if IsMarkdown(fileName) then fileName[..|fileName| - |Extension|] else fileName
  }

  /** `<slug>.md`, the file `getPostBySlug` opens. */
  function FileNameOf(slug: string): (fileName: string)
    ensures IsMarkdown(fileName)
    ensures StripExtension(fileName) == slug
  {
    assert (slug + Extension)[|slug|..] == Extension;
    slug + Extension
  }

  /** Reading and parsing one file of the directory. */
  function Read(dir: PostsDirectory, fileName: string): (file: Option<ParsedFile>)
    ensures file.Some? <==> dir.Present? && fileName in dir.files
    ensures file.Some? ==> file.value == dir.files[fileName]
  {
    if dir.Present? && fileName in dir.files then Some(dir.files[fileName]) else None
  }

  /** `matterResult.data.excerpt || ''` */
  function ExcerptOrEmpty(excerpt: Option<string>): (r: string)
    ensures r == excerpt.GetOr("")
    ensures r == "" <==> !Truthy(excerpt)
  {
    if Truthy(excerpt) then excerpt.value else ""
  }

  /** `matterResult.data.tags || []`: any array, the empty one included, is truthy. */
  function TagsOrEmpty(tags: Option<seq<string>>): (r: seq<string>)
    ensures tags.Some? ==> r == tags.value
    ensures tags.None? ==> r == []
  {
    match tags
    case Some(t) => t
    case None => []
  }

  /** The record both `getAllPosts` and `getPostBySlug` build from a parsed
      file: metadata and body copied, reading time computed from the body
      alone, defaults filled in for excerpt and tags. */
  function BuildPost(slug: string, file: ParsedFile, readingTime: string -> string): (post: BlogPost)
    ensures post.slug == slug
    ensures post.title == file.data.title && post.date == file.data.date
    ensures post.content == file.content
    ensures post.readingTime == readingTime(post.content)
    ensures post.excerpt == file.data.excerpt.GetOr("")
    ensures post.tags == file.data.tags.GetOr([])
  {
    BlogPost(
      slug := slug,
      title := file.data.title,
      date := file.data.date,
      excerpt := ExcerptOrEmpty(file.data.excerpt),
      content := file.content,
      readingTime := readingTime(file.content),
      tags := TagsOrEmpty(file.data.tags))
  }

  /** The `.map` of `getAllPosts` over the markdown names, in order: the
      first name whose file does not read or parse aborts it. */
  function BuildPosts(fileNames: seq<string>, dir: PostsDirectory, readingTime: string -> string)
    : (r: Result<seq<BlogPost>, LoadError>)
    ensures r.Failure? <==> exists i :: 0 <= i < |fileNames| && Read(dir, fileNames[i]).None?
    ensures r.Failure? ==> r.error.fileName in fileNames && Read(dir, r.error.fileName).None?
    ensures r.Success? ==> |r.value| == |fileNames|
    ensures r.Success? ==> forall i :: 0 <= i < |fileNames| ==>
      r.value[i] == BuildPost(StripExtension(fileNames[i]), Read(dir, fileNames[i]).value, readingTime)
  {
    if fileNames == [] then Success([])
    else
      match Read(dir, fileNames[0])
      case None => Failure(ReadFailed(fileNames[0]))
      case Some(file) =>
        match BuildPosts(fileNames[1..], dir, readingTime)
        case Failure(e) => Failure(e)
        case Success(rest) =>
          Success([BuildPost(StripExtension(fileNames[0]), file, readingTime)] + rest)
  }

  /** Everything `getAllPosts` does before sorting: an empty list for a
      missing directory, otherwise one record per markdown entry. */
  function UnsortedPosts(dir: PostsDirectory, readingTime: string -> string)
    : (r: Result<seq<BlogPost>, LoadError>)
    ensures dir.Missing? ==> r == Success([])
    ensures r.Failure? ==>
      dir.Present? && r.error.fileName in dir.names && IsMarkdown(r.error.fileName) && r.error.fileName !in dir.files
    ensures r.Success? && dir.Present? ==> |r.value| == |Filter(dir.names, IsMarkdown)|
    ensures r.Success? && dir.Present? ==> forall i :: 0 <= i < |r.value| ==>
      r.value[i].slug == StripExtension(Filter(dir.names, IsMarkdown)[i])
  {
    match dir
    case Missing => Success([])
    case Present(names, _) =>
      var md := Filter(names, IsMarkdown);
      var built := BuildPosts(md, dir, readingTime);
      assert built.Failure? ==> multiset(md)[built.error.fileName] > 0;
      built
  }

  /** JavaScript's `a.date < b.date`, the comparison the listing sorts by;
      it is false as soon as either date is undefined. */
  predicate DateLess(a: Option<string>, b: Option<string>) {
    a.Some? && b.Some? && Less(a.value, b.value)
  }

  /** The comparator handed to `sort`: `1` (put `b` first) when `a`'s date
      is earlier, `-1` (put `a` first) otherwise. */
  function DateComparator(a: BlogPost, b: BlogPost): int {
    if DateLess(a.date, b.date) then 1 else -1
  }

  /** The comparator never answers `0`, not even for a post compared with
      itself, so it is not a consistent comparator and the order `sort`
      produces with it is left to the JavaScript engine. */
  lemma DateComparatorIsInconsistent(p: BlogPost)
    ensures DateComparator(p, p) == -1
  {
    if p.date.Some? {
      LessIrreflexive(p.date.value);
    }
  }

  /** Where the comparator does separate two posts, because one is dated
      strictly earlier, the listing order of this model puts them the same
      way round. */
  lemma ListedBeforeFollowsComparator(a: BlogPost, b: BlogPost)
    requires DateComparator(a, b) == 1
    ensures ListedBefore(b, a) && !ListedBefore(a, b)
  {
    LessAsymmetric(a.date.value, b.date.value);
  }

  /** May `a` be listed before `b`: `b` has no date, or `a` has one at least
      as late as `b`'s. */
  predicate ListedBefore(a: BlogPost, b: BlogPost) {
    b.date.None? || (a.date.Some? && !Less(a.date.value, b.date.value))
  }

  /** Newest first: no post is followed by one with a strictly later date. */
  ghost predicate NewestFirst(posts: seq<BlogPost>) {
    forall i, j :: 0 <= i < j < |posts| ==> !DateLess(posts[i].date, posts[j].date)
  }

  lemma ListedBeforeIsTotalPreorder()
    ensures Sorting.TotalPreorder(ListedBefore)
  {
    forall a: BlogPost, b: BlogPost
      ensures ListedBefore(a, b) || ListedBefore(b, a)
    {
      if a.date.Some? && b.date.Some? {
        LessAsymmetric(a.date.value, b.date.value);
      }
    }
    forall a: BlogPost, b: BlogPost, c: BlogPost | ListedBefore(a, b) && ListedBefore(b, c)
      ensures ListedBefore(a, c)
    {
      if c.date.Some? {
        NotLessTransitive(a.date.value, b.date.value, c.date.value);
      }
    }
  }

  lemma {:induction false} SortedByListedBeforeIsNewestFirst(posts: seq<BlogPost>)
    requires Sorting.SortedBy(posts, ListedBefore)
    ensures NewestFirst(posts)
  {
  }

  /** `getAllPosts`: the records of `UnsortedPosts`, sorted newest first. */
  method GetAllPosts(dir: PostsDirectory, readingTime: string -> string)
    returns (r: Result<seq<BlogPost>, LoadError>)
    ensures dir.Missing? ==> r == Success([])
    ensures r.Success? <==> UnsortedPosts(dir, readingTime).Success?
    ensures r.Failure? ==> r == UnsortedPosts(dir, readingTime)
    ensures r.Success? ==> multiset(r.value) == multiset(UnsortedPosts(dir, readingTime).value)
    ensures r.Success? ==> NewestFirst(r.value)
    ensures r.Success? ==> forall p :: p in r.value ==>
      dir.Present? && FileNameOf(p.slug) in dir.names && GetPostBySlug(dir, p.slug, readingTime) == Some(p)
  {
    var unsorted := UnsortedPosts(dir, readingTime);
    if unsorted.Failure? {
      return unsorted;
    }
    var sorted := SortNewestFirst(unsorted.value);
    ReorderedPostsAgreeWithLookup(dir, readingTime, sorted);
    r := Success(sorted);
  }

  /** The `.sort` of `getAllPosts`, on an array holding the records. */
  method SortNewestFirst(posts: seq<BlogPost>) returns (sorted: seq<BlogPost>)
    ensures sorted == Sorting.Sort(posts, ListedBefore)
    ensures multiset(sorted) == multiset(posts)
    ensures NewestFirst(sorted)
  {
    var a := new BlogPost[|posts|](i requires 0 <= i < |posts| => posts[i]);
    assert a[..] == posts;
    ListedBeforeIsTotalPreorder();
    Sorting.InsertionSort(a, ListedBefore);
    sorted := a[..];
    SortedByListedBeforeIsNewestFirst(sorted);
  }

  /** Any reordering of the listing keeps list and detail in agreement. */
  lemma ReorderedPostsAgreeWithLookup(dir: PostsDirectory, readingTime: string -> string, posts: seq<BlogPost>)
    requires UnsortedPosts(dir, readingTime).Success?
    requires multiset(posts) == multiset(UnsortedPosts(dir, readingTime).value)
    ensures forall p :: p in posts ==>
      dir.Present? && FileNameOf(p.slug) in dir.names && GetPostBySlug(dir, p.slug, readingTime) == Some(p)
  {
    forall p | p in posts
      ensures dir.Present? && FileNameOf(p.slug) in dir.names && GetPostBySlug(dir, p.slug, readingTime) == Some(p)
    {
      assert multiset(posts)[p] > 0;
      ListedPostsAgreeWithLookup(dir, readingTime, p);
    }
  }

  /** `getPostBySlug`: the record for `<slug>.md`, or `null` when that file
      cannot be read or parsed (the exception is caught). */
  function GetPostBySlug(dir: PostsDirectory, slug: string, readingTime: string -> string)
    : (r: Option<BlogPost>)
    ensures r.None? <==> Read(dir, FileNameOf(slug)).None?
    ensures r.Some? ==> r.value.slug == slug
  {
    match Read(dir, FileNameOf(slug))
    case None => None
    case Some(file) => Some(BuildPost(slug, file, readingTime))
  }

  /** List and detail agree: every record of the listing comes from a
      markdown entry `<slug>.md` of the directory, and looking its slug up
      yields the very same record, field for field. */
  lemma ListedPostsAgreeWithLookup(dir: PostsDirectory, readingTime: string -> string, p: BlogPost)
    requires UnsortedPosts(dir, readingTime).Success?
    requires p in UnsortedPosts(dir, readingTime).value
    ensures dir.Present? && FileNameOf(p.slug) in dir.names
    ensures GetPostBySlug(dir, p.slug, readingTime) == Some(p)
  {
    var md := Filter(dir.names, IsMarkdown);
    var posts := UnsortedPosts(dir, readingTime).value;
    var i :| 0 <= i < |posts| && posts[i] == p;
    assert md[i] in md;
    assert multiset(md)[md[i]] > 0;
    assert FileNameOf(p.slug) == md[i];
  }

  /** The file names the records were built from: `<slug>.md` of each. */
  function SourceNames(posts: seq<BlogPost>): (names: seq<string>)
    ensures |names| == |posts|
    ensures forall i :: 0 <= i < |posts| ==> names[i] == FileNameOf(posts[i].slug)
  {
    seq(|posts|, i requires 0 <= i < |posts| => FileNameOf(posts[i].slug))
  }

  /** Exactly one post per directory entry whose name ends in `.md`, in the
      listing's order; any other entry contributes nothing. */
  lemma OnePostPerMarkdownEntry(dir: PostsDirectory, readingTime: string -> string)
    requires dir.Present? && UnsortedPosts(dir, readingTime).Success?
    ensures SourceNames(UnsortedPosts(dir, readingTime).value) == Filter(dir.names, IsMarkdown)
    ensures forall n ::
      multiset(SourceNames(UnsortedPosts(dir, readingTime).value))[n] == if IsMarkdown(n) then multiset(dir.names)[n] else 0
  {
    var md := Filter(dir.names, IsMarkdown);
    var names := SourceNames(UnsortedPosts(dir, readingTime).value);
    forall i | 0 <= i < |md| ensures names[i] == md[i] {
      assert md[i] in md;
    }
  }

  /** A missing directory is an empty blog, not an error. */
  lemma MissingDirectoryIsEmpty(readingTime: string -> string)
    ensures UnsortedPosts(Missing, readingTime) == Success([])
    ensures forall slug :: GetPostBySlug(Missing, slug, readingTime).None?
  {
  }

  /** A listing fails exactly when one of its markdown entries cannot be
      read or parsed; entries of other kinds are never opened. */
  lemma ListingFailsOnUnreadableMarkdown(dir: PostsDirectory, readingTime: string -> string)
    requires dir.Present?
    ensures UnsortedPosts(dir, readingTime).Failure? <==>
      exists n :: n in dir.names && IsMarkdown(n) && n !in dir.files
  {
    var md := Filter(dir.names, IsMarkdown);
    if exists n :: n in dir.names && IsMarkdown(n) && n !in dir.files {
      var n :| n in dir.names && IsMarkdown(n) && n !in dir.files;
      assert multiset(dir.names)[n] > 0;
      assert multiset(md)[n] > 0;
      var i :| 0 <= i < |md| && md[i] == n;
      assert Read(dir, md[i]).None?;
    }
  }

  /** The reading time depends on the body only, never on the front-matter
      or on the slug. */
  lemma ReadingTimeDependsOnContentOnly(
    readingTime: string -> string, slug1: string, file1: ParsedFile, slug2: string, file2: ParsedFile)
    requires file1.content == file2.content
    ensures BuildPost(slug1, file1, readingTime).readingTime == BuildPost(slug2, file2, readingTime).readingTime
  {
  }

  /** Slugs are unique: a directory lists each name once, and different
      markdown names give different slugs. */
  lemma ListedSlugsAreDistinct(dir: PostsDirectory, readingTime: string -> string)
    requires dir.Present? && UnsortedPosts(dir, readingTime).Success?
    requires Distinct(dir.names)
    ensures var posts := UnsortedPosts(dir, readingTime).value;
      forall i, j :: 0 <= i < j < |posts| ==> posts[i].slug != posts[j].slug
  {
    var posts := UnsortedPosts(dir, readingTime).value;
    OnePostPerMarkdownEntry(dir, readingTime);
    FilterDistinct(dir.names, IsMarkdown);
    forall i, j | 0 <= i < j < |posts| ensures posts[i].slug != posts[j].slug {
      assert SourceNames(posts)[i] != SourceNames(posts)[j];
    }
  }

  /** Only the final `.md` is taken off a name, and names with another
      extension are not posts. */
  lemma SlugExamples()
    ensures StripExtension("hello-world.md") == "hello-world"
    ensures StripExtension("notes.md.md") == "notes.md"
    ensures !IsMarkdown("draft.mdx") && !IsMarkdown("README")
  {
    assert ("hello-world.md")[11..] == Extension;
    assert ("notes.md.md")[8..] == Extension;
  }
}
