/**
 * The post repository: `getAllPosts`, `getPostBySlug`, `getAllTags` and
 * `getPostsByTag` over a disk that holds a posts directory and a drafts
 * directory. A directory is missing, or lists its files in the order
 * `readdirSync` returns them, each with the content `readFileSync` would
 * read. Frontmatter parsing, reading-time estimation and `NODE_ENV` are
 * parameters of the environment.
 */
module Posts {
  import opened Wrappers
  import opened Text
  import opened BlogTypes
  import opened StableSort

  datatype File = File(name: string, content: string)

  /** A directory that does not exist, or the files of one that does. */
  datatype Directory = Missing | Present(files: seq<File>)

  /** `content/posts` and `content/drafts`. */
  datatype Disk = Disk(posts: Directory, drafts: Directory)

  /**
   * `parseFrontmatter` (file content to frontmatter and body),
   * `calculateReadingTime` (body to minutes) and `process.env.NODE_ENV`.
   */
  datatype Env = Env(parse: string -> (Frontmatter, string), readingTime: string -> int, nodeEnv: string)

  /** `file.endsWith(`.${locale}.mdx`) || file.endsWith(`.${locale}.md`)`. */
  predicate IsPostFile(name: string, locale: Locale) {
    EndsWith(name, "." + locale.Tag() + ".mdx") || EndsWith(name, "." + locale.Tag() + ".md")
  }

  /** `files.filter(...)`: the files of the locale, in directory order. */
  function PostFiles(files: seq<File>, locale: Locale): (r: seq<File>)
    ensures |r| <= |files|
  {
    if files == [] then []
    else (if IsPostFile(files[0].name, locale) then [files[0]] else []) + PostFiles(files[1..], locale)
  }

  /**
   * Read one file: parse it, and take the frontmatter's reading time unless
   * it is missing or 0, in which case compute it from the body.
   */
  function LoadPost(content: string, env: Env): (p: Post)
    ensures p.content == env.parse(content).1
    ensures var fm := env.parse(content).0;
      && p.title == fm.title && p.description == fm.description && p.author == fm.author
      && p.image == fm.image && p.slug == fm.slug && p.date == fm.date && p.tags == fm.tags
      && p.locale == fm.locale
      && p.readingTime == if fm.readingTime.Some? && fm.readingTime.value != 0
                          then fm.readingTime.value else env.readingTime(p.content)
  {
    var (fm, body) := env.parse(content);
    BuildPost(fm, body, env.readingTime(body))
  }

  /** One post per file, in order. */
  function LoadAll(files: seq<File>, env: Env): (r: seq<Post>)
    ensures |r| == |files|
  {
    if files == [] then []
    else LoadAll(files[..|files| - 1], env) + [LoadPost(files[|files| - 1].content, env)]
  }

  /** The posts of one directory: none when it is missing. */
  function DirPosts(d: Directory, locale: Locale, env: Env): seq<Post> {
    match d
    case Missing => []
    case Present(files) => LoadAll(PostFiles(files, locale), env)
  }

  /** The directories `getAllPosts` scans: the drafts only with `includeDrafts` in development. */
  function Directories(disk: Disk, includeDrafts: bool, nodeEnv: string): seq<Directory> {
    if includeDrafts && nodeEnv == "development" then [disk.posts, disk.drafts] else [disk.posts]
  }

  /** The posts the loops push, directory after directory. */
  function Collected(dirs: seq<Directory>, locale: Locale, env: Env): seq<Post> {
    if dirs == [] then []
    else Collected(dirs[..|dirs| - 1], locale, env) + DirPosts(dirs[|dirs| - 1], locale, env)
  }

  /** What `getAllPosts(locale, includeDrafts)` returns: the collected posts, newest first (stably). */
  function AllPosts(disk: Disk, locale: Locale, includeDrafts: bool, env: Env): seq<Post> {
    SortDesc(Collected(Directories(disk, includeDrafts, env.nodeEnv), locale, env), Date)
  }

  /** The inner loop of `getAllPosts`: read each file of the locale and push its post. */
  method PushPosts(posts: seq<Post>, mdxFiles: seq<File>, env: Env) returns (r: seq<Post>)
    ensures r == posts + LoadAll(mdxFiles, env)
  {
    r := posts;
    for i := 0 to |mdxFiles|
      invariant r == posts + LoadAll(mdxFiles[..i], env)
    {
      assert mdxFiles[..i + 1][..i] == mdxFiles[..i];
      var post := LoadPost(mdxFiles[i].content, env);
      r := r + [post];
    }
    assert mdxFiles[..|mdxFiles|] == mdxFiles;
  }

  /** `getAllPosts(locale, includeDrafts)`. */
  method GetAllPosts(disk: Disk, locale: Locale, includeDrafts: bool, env: Env) returns (r: seq<Post>)
    ensures r == AllPosts(disk, locale, includeDrafts, env)
  {
    var directories := [disk.posts];
    if includeDrafts && env.nodeEnv == "development" {
      directories := directories + [disk.drafts];
    }
    assert directories == Directories(disk, includeDrafts, env.nodeEnv);
    var posts: seq<Post> := [];
    for d := 0 to |directories|
      invariant posts == Collected(directories[..d], locale, env)
    {
      var directory := directories[d];
      assert directories[..d + 1] == directories[..d] + [directory];
      if directory.Missing? {
        continue;
      }
      var mdxFiles := PostFiles(directory.files, locale);
      posts := PushPosts(posts, mdxFiles, env);
    }
    assert directories[..|directories|] == directories;
    r := SortDesc(posts, Date);
  }

  /** `getAllPosts` returns the newest post first: dates never increase. */
  lemma AllPostsNewestFirst(disk: Disk, locale: Locale, includeDrafts: bool, env: Env)
    ensures NonIncreasing(AllPosts(disk, locale, includeDrafts, env), Date)
  {
    SortDescNonIncreasing(Collected(Directories(disk, includeDrafts, env.nodeEnv), locale, env), Date);
  }

  /** Only the files of the locale are read. */
  lemma {:induction false} PostFilesMembers(files: seq<File>, locale: Locale, f: File)
    ensures f in PostFiles(files, locale) <==> f in files && IsPostFile(f.name, locale)
  {
    if files != [] {
      PostFilesMembers(files[1..], locale, f);
      assert files == [files[0]] + files[1..];
    }
  }

  /** Each file read yields exactly one post, the one loaded from its content, in file order. */
  lemma {:induction false} LoadAllPosts(files: seq<File>, env: Env)
    ensures forall i :: 0 <= i < |files| ==> LoadAll(files, env)[i] == LoadPost(files[i].content, env)
  {
    if files != [] {
      LoadAllPosts(files[..|files| - 1], env);
    }
  }

  /**
   * The drafts directory contributes only with `includeDrafts` in
   * development, and a missing directory contributes nothing.
   */
  lemma DraftGate(disk: Disk, locale: Locale, includeDrafts: bool, env: Env)
    ensures var collected := Collected(Directories(disk, includeDrafts, env.nodeEnv), locale, env);
      && (includeDrafts && env.nodeEnv == "development" ==>
           collected == DirPosts(disk.posts, locale, env) + DirPosts(disk.drafts, locale, env))
      && (!(includeDrafts && env.nodeEnv == "development") ==> collected == DirPosts(disk.posts, locale, env))
      && (disk.posts.Missing? && (disk.drafts.Missing? || !includeDrafts) ==> collected == [])
  {
    var dirs := Directories(disk, includeDrafts, env.nodeEnv);
    assert [disk.posts][..0] == [];
    assert Collected([disk.posts], locale, env) == DirPosts(disk.posts, locale, env);
    if |dirs| == 2 {
      assert dirs[..1] == [disk.posts];
    }
  }

  /** `f.replace(/\.(mdx?|md)$/, "")`: a final `.mdx` or `.md` is removed. */
  function StripExtension(name: string): (r: string)
    ensures EndsWith(name, ".mdx") ==> r + ".mdx" == name
    ensures !EndsWith(name, ".mdx") && EndsWith(name, ".md") ==> r + ".md" == name
    ensures !EndsWith(name, ".mdx") && !EndsWith(name, ".md") ==> r == name
  {
    if EndsWith(name, ".mdx") then name[..|name| - 4]
    else if EndsWith(name, ".md") then name[..|name| - 3]
    else name
  }

  /** The extension is removed whichever of the two a name carries. */
  lemma StripExtensionOf(stem: string)
    ensures StripExtension(stem + ".mdx") == stem
    ensures StripExtension(stem + ".md") == stem
  {
    var a, b := stem + ".mdx", stem + ".md";
    assert a[|a| - 4..] == ".mdx" && a[..|a| - 4] == stem;
    assert b[|b| - 3..] == ".md" && b[..|b| - 3] == stem;
    assert b[|b| - 1] == 'd';
    assert !EndsWith(b, ".mdx");
  }

  /** `files.find((f) => stripped f === target)`: the first file whose stripped name is the target. */
  function FindFile(files: seq<File>, target: string): (r: Option<File>)
    ensures r.Some? ==> r.value in files && StripExtension(r.value.name) == target
    ensures r.None? ==> forall f :: f in files ==> StripExtension(f.name) != target
  {
    if files == [] then None
    else if StripExtension(files[0].name) == target then Some(files[0])
    else FindFile(files[1..], target)
  }

  /** `find` picks the first matching file, not any matching file. */
  lemma {:induction false} FindFileFirst(files: seq<File>, target: string, i: nat)
    requires i < |files| && StripExtension(files[i].name) == target
    requires forall k :: 0 <= k < i ==> StripExtension(files[k].name) != target
    ensures FindFile(files, target) == Some(files[i])
  {
    if i > 0 {
      FindFileFirst(files[1..], target, i - 1);
    }
  }

  /** The name `getPostBySlug` looks for: `${slug}.${locale}`. */
  function SlugTarget(slug: string, locale: Locale): string {
    slug + "." + locale.Tag()
  }

  /** The search over the directories in order, stopping at the first one holding the file. */
  function FindIn(dirs: seq<Directory>, target: string, env: Env): Option<Post> {
    if dirs == [] then None
    else match dirs[0]
      case Missing => FindIn(dirs[1..], target, env)
      case Present(files) =>
        match FindFile(files, target)
        case Some(f) => Some(LoadPost(f.content, env))
        case None => FindIn(dirs[1..], target, env)
  }

  /** What `getPostBySlug(slug, locale)` returns: posts first, then drafts, in every environment. */
  function PostBySlug(disk: Disk, slug: string, locale: Locale, env: Env): Option<Post> {
    FindIn([disk.posts, disk.drafts], SlugTarget(slug, locale), env)
  }

  /** `getPostBySlug(slug, locale)`. */
  method GetPostBySlug(disk: Disk, slug: string, locale: Locale, env: Env) returns (r: Option<Post>)
    ensures r == PostBySlug(disk, slug, locale, env)
  {
    var directories := [disk.posts, disk.drafts];
    var target := SlugTarget(slug, locale);
    for d := 0 to |directories|
      invariant FindIn(directories[d..], target, env) == PostBySlug(disk, slug, locale, env)
    {
      assert directories[d..][1..] == directories[d + 1..];
      var directory := directories[d];
      if directory.Missing? {
        continue;
      }
      var file := FindFile(directory.files, target);
      if file.Some? {
        return Some(LoadPost(file.value.content, env));
      }
    }
    return None;
  }

  /** The file in the posts directory wins over a draft of the same name. */
  lemma PostsBeforeDrafts(disk: Disk, slug: string, locale: Locale, env: Env, f: File)
    requires disk.posts.Present?
    requires FindFile(disk.posts.files, SlugTarget(slug, locale)) == Some(f)
    ensures PostBySlug(disk, slug, locale, env) == Some(LoadPost(f.content, env))
  {
  }

  /** Drafts are searched whatever `NODE_ENV` says, once the posts directory has no such file. */
  lemma DraftsAlwaysSearched(disk: Disk, slug: string, locale: Locale, env: Env)
    requires disk.posts.Missing? || FindFile(disk.posts.files, SlugTarget(slug, locale)).None?
    ensures PostBySlug(disk, slug, locale, env)
         == FindIn([disk.drafts], SlugTarget(slug, locale), env)
  {
    var dirs := [disk.posts, disk.drafts];
    assert dirs[1..] == [disk.drafts];
  }

  /**
   * `null` exactly when neither directory holds a file named
   * `${slug}.${locale}`, `${slug}.${locale}.md` or `${slug}.${locale}.mdx`.
   */
  lemma NotFound(disk: Disk, slug: string, locale: Locale, env: Env)
    ensures PostBySlug(disk, slug, locale, env).None? <==>
      (disk.posts.Missing? || FindFile(disk.posts.files, SlugTarget(slug, locale)).None?) &&
      (disk.drafts.Missing? || FindFile(disk.drafts.files, SlugTarget(slug, locale)).None?)
  {
    var dirs, target := [disk.posts, disk.drafts], SlugTarget(slug, locale);
    assert dirs[1..] == [disk.drafts];
    assert [disk.drafts][1..] == [];
    assert FindIn([disk.drafts], target, env).None? <==> disk.drafts.Missing? || FindFile(disk.drafts.files, target).None?;
  }

  /** Both extensions, and a name without one, reach the same post. */
  lemma SlugFileNames(slug: string, locale: Locale)
    ensures StripExtension(SlugTarget(slug, locale) + ".mdx") == SlugTarget(slug, locale)
    ensures StripExtension(SlugTarget(slug, locale) + ".md") == SlugTarget(slug, locale)
    ensures StripExtension(SlugTarget(slug, locale)) == SlugTarget(slug, locale)
  {
    StripExtensionOf(SlugTarget(slug, locale));
    var t := SlugTarget(slug, locale);
    assert t == slug + "." + locale.Tag();
    if locale == En {
      assert t[|t| - 3..] == ".en";
    } else {
      assert t[|t| - 6..] == ".pt-BR";
    }
  }

  /** `tagsSet.add(tag)` for each tag in turn: a tag already present is not added again. */
  function AddTags(acc: seq<string>, tags: seq<string>): seq<string> {
    if tags == [] then acc
    else
      var before := AddTags(acc, tags[..|tags| - 1]);
      if tags[|tags| - 1] in before then before else before + [tags[|tags| - 1]]
  }

  /** The set's entries in insertion order after visiting every post's tags. */
  function TagSet(posts: seq<Post>): seq<string> {
    if posts == [] then []
    else AddTags(TagSet(posts[..|posts| - 1]), posts[|posts| - 1].tags)
  }

  /** What `getAllTags(locale)` returns. */
  function AllTags(disk: Disk, locale: Locale, env: Env): seq<string> {
    SortStrings(TagSet(AllPosts(disk, locale, true, env)))
  }

  /** The inner loop of `getAllTags`: each tag of one post not yet in the set is added. */
  method AddPostTags(tagsSet: seq<string>, tags: seq<string>) returns (r: seq<string>)
    ensures r == AddTags(tagsSet, tags)
  {
    r := tagsSet;
    for j := 0 to |tags|
      invariant r == AddTags(tagsSet, tags[..j])
    {
      assert tags[..j + 1][..j] == tags[..j];
      var tag := tags[j];
      if tag !in r {
        r := r + [tag];
      }
    }
    assert tags[..|tags|] == tags;
  }

  lemma TagSetStep(posts: seq<Post>, i: nat)
    requires i < |posts|
    ensures TagSet(posts[..i + 1]) == AddTags(TagSet(posts[..i]), posts[i].tags)
  {
    assert posts[..i + 1][..i] == posts[..i];
  }

  /** `getAllTags(locale)`. */
  method GetAllTags(disk: Disk, locale: Locale, env: Env) returns (tags: seq<string>)
    ensures tags == AllTags(disk, locale, env)
  {
    var posts := GetAllPosts(disk, locale, true, env);
    var tagsSet: seq<string> := [];
    for i := 0 to |posts|
      invariant tagsSet == TagSet(posts[..i])
    {
      TagSetStep(posts, i);
      tagsSet := AddPostTags(tagsSet, posts[i].tags);
    }
    assert posts[..|posts|] == posts;
    tags := SortStrings(tagsSet);
  }

  predicate Distinct(s: seq<string>) {
    forall i, j :: 0 <= i < j < |s| ==> s[i] != s[j]
  }

  lemma {:induction false} AddTagsMembers(acc: seq<string>, tags: seq<string>)
    requires Distinct(acc)
    ensures Distinct(AddTags(acc, tags))
    ensures forall t :: t in AddTags(acc, tags) <==> t in acc || t in tags
  {
    if tags != [] {
      var init := tags[..|tags| - 1];
      AddTagsMembers(acc, init);
      assert tags == init + [tags[|tags| - 1]];
    }
  }

  /** The set holds each tag of each post, once. */
  lemma {:induction false} TagSetMembers(posts: seq<Post>)
    ensures Distinct(TagSet(posts))
    ensures forall t :: t in TagSet(posts) <==> exists i :: 0 <= i < |posts| && t in posts[i].tags
  {
    if posts != [] {
      var init := posts[..|posts| - 1];
      TagSetMembers(init);
      AddTagsMembers(TagSet(init), posts[|posts| - 1].tags);
      forall t | t in TagSet(posts)
        ensures exists i :: 0 <= i < |posts| && t in posts[i].tags
      {
        if t in TagSet(init) {
          var i :| 0 <= i < |init| && t in init[i].tags;
          assert posts[i] == init[i];
        }
      }
      forall t | exists i :: 0 <= i < |posts| && t in posts[i].tags
        ensures t in TagSet(posts)
      {
        var i :| 0 <= i < |posts| && t in posts[i].tags;
        if i < |init| {
          assert init[i] == posts[i];
        }
      }
    }
  }

  /**
   * `getAllTags` lists each tag used by some post, drafts included, exactly
   * once, in ascending order.
   */
  lemma AllTagsSpec(disk: Disk, locale: Locale, env: Env)
    ensures StrictlyAscending(AllTags(disk, locale, env))
    ensures forall t :: t in AllTags(disk, locale, env) <==>
      exists p :: p in AllPosts(disk, locale, true, env) && t in p.tags
  {
    var posts := AllPosts(disk, locale, true, env);
    TagSetMembers(posts);
    SortStringsAscending(TagSet(posts));
    forall t ensures t in AllTags(disk, locale, env) <==> t in TagSet(posts) {
      assert t in multiset(AllTags(disk, locale, env)) <==> t in multiset(TagSet(posts));
    }
    forall t, p | p in posts && t in p.tags ensures t in TagSet(posts) {
      var i :| 0 <= i < |posts| && posts[i] == p;
    }
  }

  /** `posts.filter((post) => post.tags.includes(tag))`. */
  function WithTag(posts: seq<Post>, tag: string): (r: seq<Post>)
    ensures |r| <= |posts|
  {
    if posts == [] then []
    else (if tag in posts[0].tags then [posts[0]] else []) + WithTag(posts[1..], tag)
  }

  /** `getPostsByTag(tag, locale)`: drafts are never included. */
  method GetPostsByTag(disk: Disk, tag: string, locale: Locale, env: Env) returns (r: seq<Post>)
    ensures r == WithTag(AllPosts(disk, locale, false, env), tag)
  {
    var posts := GetAllPosts(disk, locale, false, env);
    r := WithTag(posts, tag);
  }

  /** The filter keeps exactly the posts carrying the tag. */
  lemma {:induction false} WithTagMembers(posts: seq<Post>, tag: string, p: Post)
    ensures p in WithTag(posts, tag) <==> p in posts && tag in p.tags
  {
    if posts != [] {
      WithTagMembers(posts[1..], tag, p);
      assert posts == [posts[0]] + posts[1..];
    }
  }

  /** The filter keeps the order: a newest-first list stays newest-first. */
  lemma {:induction false} WithTagKeepsOrder(posts: seq<Post>, tag: string)
    requires NonIncreasing(posts, Date)
    ensures NonIncreasing(WithTag(posts, tag), Date)
    ensures WithTag(posts, tag) != [] ==> posts != [] && Date(posts[0]) >= Date(WithTag(posts, tag)[0])
  {
    if posts != [] {
      var rest := WithTag(posts[1..], tag);
      WithTagKeepsOrder(posts[1..], tag);
      if tag in posts[0].tags {
        forall j | 0 < j < |WithTag(posts, tag)|
          ensures Date(posts[0]) >= Date(WithTag(posts, tag)[j])
        {
          assert WithTag(posts, tag)[j] == rest[j - 1];
          assert rest[j - 1] in rest;
          WithTagMembers(posts[1..], tag, rest[j - 1]);
        }
      } else if rest != [] {
        assert Date(posts[0]) >= Date(posts[1]);
      }
    }
  }

  /** `getPostsByTag` returns the non-draft posts with the tag, newest first. */
  lemma PostsByTagSpec(disk: Disk, tag: string, locale: Locale, env: Env)
    ensures var r := WithTag(AllPosts(disk, locale, false, env), tag);
      && NonIncreasing(r, Date)
      && forall p :: p in r <==> p in multiset(SortDesc(DirPosts(disk.posts, locale, env), Date)) && tag in p.tags
  {
    var all := AllPosts(disk, locale, false, env);
    AllPostsNewestFirst(disk, locale, false, env);
    WithTagKeepsOrder(all, tag);
    DraftGate(disk, locale, false, env);
    forall p ensures p in WithTag(all, tag) <==> p in all && tag in p.tags {
      WithTagMembers(all, tag, p);
    }
  }
}
