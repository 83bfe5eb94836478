/**
 * The image embedding generator's arithmetic and bookkeeping: which files of a
 * folder are embedded, the dot-product similarity, and the top-k ranking of a
 * database of embeddings against a query. The ViT model itself is an oracle
 * `embed` from an image path to its embedding, or None when the image cannot
 * be loaded.
 */
module ImageEmbeddings {
  import opened Wrappers
  import opened Dicts
  import opened Ranking
  import opened Text
  import opened Vectors


  /** `calculate_similarity`: the plain dot product `np.dot(a, b)`. */
  function Similarity(a: Embedding, b: Embedding): real
    requires |a| == |b|
  {
    if a == [] then 0.0 else a[0] * b[0] + Similarity(a[1..], b[1..])
  }

  /** The similarity does not depend on the order of its arguments. */
  lemma {:induction false} SimilaritySymmetric(a: Embedding, b: Embedding)
    requires |a| == |b|
    ensures Similarity(a, b) == Similarity(b, a)
  {
    if a != [] {
      SimilaritySymmetric(a[1..], b[1..]);
    }
  }

  /** An embedding is never less similar to itself than zero. */
  lemma {:induction false} SelfSimilarityNonNegative(a: Embedding)
    ensures Similarity(a, a) >= 0.0
  {
    if a != [] {
      SelfSimilarityNonNegative(a[1..]);
      assert a[0] * a[0] >= 0.0;
    }
  }

  /** The last position of `c` in `s`, or -1 (`str.rfind`). */
  function RFind(s: string, c: char): (i: int)
    ensures -1 <= i < |s|
    ensures i >= 0 ==> s[i] == c
    ensures forall k :: i < k < |s| ==> s[k] != c
  {
    if s == [] then -1
    else if s[|s| - 1] == c then |s| - 1
    else RFind(s[..|s| - 1], c)
  }

  /**
   * `os.path.splitext(p)[1]`: from the last dot of the last path component
   * on, unless everything before that dot in the component is dots.
   */
  function Extension(p: string): (e: string)
    ensures e == [] || (|e| <= |p| && e == p[|p| - |e|..])
    ensures e == [] || (e[0] == '.' && '.' !in e[1..] && '/' !in e)
  {
    var sep := RFind(p, '/');
    var dot := RFind(p, '.');
    if dot > sep && HasStem(p, sep, dot) then
      assert forall k :: dot < k < |p| ==> p[k] != '.' && p[k] != '/';
      p[dot..]
    else []
  }

  /** Some character strictly between positions `lo` and `hi` of `p` is not a dot. */
  predicate HasStem(p: string, lo: int, hi: int) {
    exists k :: lo < k < hi && 0 <= k < |p| && p[k] != '.'
  }

  /** A leading dot marks a hidden file, not an extension. */
  lemma HiddenFileHasNoExtension()
    ensures Extension(".png") == []
    ensures Extension("photo.PNG") == ".PNG"
  {
    assert ".png"[0] == '.' && ".png"[1] != '.' && ".png"[2] != '.' && ".png"[3] != '.';
    assert RFind(".png", '.') == 0;
    var p := "photo.PNG";
    assert p[5] == '.' && p[6] != '.' && p[7] != '.' && p[8] != '.';
    assert RFind(p, '.') == 5;
    assert forall k :: 0 <= k < |p| ==> p[k] != '/';
    assert RFind(p, '/') == -1;
    assert p[0] != '.';
    assert p[5..] == ".PNG";
  }

  /**
   * `splitext` finds an extension exactly when the last path component holds
   * a dot with some character other than a dot before it.
   */
  lemma ExtensionNonEmpty(p: string)
    ensures Extension(p) != [] <==>
      exists k, d :: RFind(p, '/') < k < d < |p| && p[d] == '.' && p[k] != '.'
  {
    var sep := RFind(p, '/');
    var dot := RFind(p, '.');
    forall k, d | sep < k < d < |p| && p[d] == '.' && p[k] != '.' ensures Extension(p) != [] {
      ExtensionFromStem(p, k, d);
    }
    if Extension(p) != [] {
      var k := StemOfExtension(p);
      assert sep < k < dot < |p| && p[dot] == '.' && p[k] != '.';
    }
  }

  /** An extension starts at the last dot, after some non-dot of the last path component. */
  lemma StemOfExtension(p: string) returns (k: int)
    requires Extension(p) != []
    ensures RFind(p, '/') < k < RFind(p, '.') < |p| && p[RFind(p, '.')] == '.' && p[k] != '.'
  {
    k :| RFind(p, '/') < k < RFind(p, '.') && 0 <= k < |p| && p[k] != '.';
  }

  /** A dot after a non-dot in the last path component gives an extension. */
  lemma ExtensionFromStem(p: string, k: int, d: int)
    requires RFind(p, '/') < k < d < |p| && p[d] == '.' && p[k] != '.'
    ensures Extension(p) != []
  {
    var dot := RFind(p, '.');
    assert dot >= d;
    assert HasStem(p, RFind(p, '/'), dot) by {
      assert RFind(p, '/') < k < dot && 0 <= k < |p| && p[k] != '.';
    }
  }

  /** Lowering a name does not move its last dot or its last slash. */
  lemma {:induction false} RFindLower(p: string, c: char)
    requires !('A' <= c <= 'Z') && !('a' <= c <= 'z')
    ensures RFind(Lower(p), c) == RFind(p, c)
  {
    if p != [] {
      var q := p[..|p| - 1];
      assert Lower(p)[..|p| - 1] == Lower(q);
      LowerKeeps(p, c);
      RFindLower(q, c);
    }
  }

  lemma HasStemLower(p: string, lo: int, hi: int)
    ensures HasStem(Lower(p), lo, hi) <==> HasStem(p, lo, hi)
  {
    LowerKeeps(p, '.');
    if HasStem(p, lo, hi) {
      var k :| lo < k < hi && 0 <= k < |p| && p[k] != '.';
      assert Lower(p)[k] != '.';
    }
    if HasStem(Lower(p), lo, hi) {
      var k :| lo < k < hi && 0 <= k < |p| && Lower(p)[k] != '.';
      assert p[k] != '.';
    }
  }

  lemma LowerSuffix(p: string, i: nat)
    requires i <= |p|
    ensures Lower(p)[i..] == Lower(p[i..])
  {
  }

  /** The extension of the lower-cased name is the lower-cased extension of the name. */
  lemma ExtensionLower(p: string)
    ensures Extension(Lower(p)) == Lower(Extension(p))
  {
    RFindLower(p, '/');
    RFindLower(p, '.');
    var sep := RFind(p, '/');
    var dot := RFind(p, '.');
    HasStemLower(p, sep, dot);
    if dot > sep && HasStem(p, sep, dot) {
      LowerSuffix(p, dot);
    } else {
      assert Lower([]) == [];
    }
  }

  const ImageExtensions: set<string> := {".jpg", ".jpeg", ".png", ".bmp", ".gif", ".tiff"}

  /** The filter of `generate_embeddings_for_folder`: the lower-cased extension is an image extension. */
  predicate IsImageFile(name: string) {
    Extension(Lower(name)) in ImageExtensions
  }

  /** A name passes the filter exactly when its own extension, lower-cased, is an image extension. */
  lemma IsImageFileExtension(name: string)
    ensures IsImageFile(name) <==> Lower(Extension(name)) in ImageExtensions
  {
    ExtensionLower(name);
  }

  /** The image files of a listing, in listing order (see `ImageFilesSnoc`). */
  function ImageFiles(listing: seq<string>): (files: seq<string>)
    ensures |files| <= |listing|
    ensures forall f :: f in files <==> f in listing && IsImageFile(f)
  {
    if listing == [] then []
    else
      var last := listing[|listing| - 1];
      ImageFiles(listing[..|listing| - 1]) + (if IsImageFile(last) then [last] else [])
  }

  /**
   * `os.path.join(folder, name)` with POSIX rules: an absolute name replaces
   * the folder; otherwise the name follows the folder, with one `/` between
   * them unless the folder is empty or already ends with one.
   */
  function PathJoin(folder: string, name: string): (path: string)
    ensures StartsWith(name, "/") ==> path == name
    ensures !StartsWith(name, "/") ==>
      |folder| + |name| <= |path| <= |folder| + |name| + 1 &&
      path[..|folder|] == folder && path[|path| - |name|..] == name
    ensures !StartsWith(name, "/") ==>
      (|path| == |folder| + |name| + 1 <==> folder != [] && folder[|folder| - 1] != '/')
    ensures |path| == |folder| + |name| + 1 ==> path[|folder|] == '/'
  {
    if StartsWith(name, "/") then name
    else if folder == [] || folder[|folder| - 1] == '/' then folder + name
    else folder + "/" + name
  }

  /** Joining a folder with two relative names gives the same path only for the same name. */
  lemma PathJoinInjective(folder: string, x: string, y: string)
    requires !StartsWith(x, "/") && !StartsWith(y, "/")
    requires PathJoin(folder, x) == PathJoin(folder, y)
    ensures x == y
  {
    var px := PathJoin(folder, x);
    if folder == [] || folder[|folder| - 1] == '/' {
      assert x == px[|folder|..] && y == px[|folder|..];
    } else {
      assert x == px[|folder| + 1..] && y == px[|folder| + 1..];
    }
  }

  /** A name without a `/` is relative. */
  lemma NoSlashRelative(name: string)
    requires '/' !in name
    ensures !StartsWith(name, "/")
  {
    if |name| >= 1 {
      assert name[..1][0] == name[0];
    }
  }

  /**
   * The filter works name by name, in listing order: one more listed name is
   * appended exactly when it passes. With `ImageFiles([]) == []` this fixes
   * the result, order included, for every listing.
   */
  lemma ImageFilesSnoc(listing: seq<string>, name: string)
    ensures ImageFiles(listing + [name]) == ImageFiles(listing) + if IsImageFile(name) then [name] else []
  {
    var l := listing + [name];
    assert l[..|l| - 1] == listing;
  }

  /** Filtering a listing of distinct names keeps them distinct. */
  lemma {:induction false} ImageFilesDistinct(listing: seq<string>)
    requires Distinct(listing)
    ensures Distinct(ImageFiles(listing))
  {
    if listing != [] {
      var init := listing[..|listing| - 1];
      var last := listing[|listing| - 1];
      assert last !in init;
      ImageFilesDistinct(init);
    }
  }

  /**
   * `os.listdir` gives distinct names, none holding a `/`: their joined
   * paths are distinct too, so the folder's dict holds one key per
   * embedded file (see `EmbedFilesOrder`).
   */
  lemma ListingPathsDistinct(folder: string, listing: seq<string>)
    requires Distinct(listing) && forall i :: 0 <= i < |listing| ==> '/' !in listing[i]
    ensures Distinct(Paths(folder, ImageFiles(listing)))
  {
    var files := ImageFiles(listing);
    ImageFilesDistinct(listing);
    forall i, j | 0 <= i < j < |files| ensures Paths(folder, files)[i] != Paths(folder, files)[j] {
      assert files[i] in listing && files[j] in listing;
      NoSlashRelative(files[i]);
      NoSlashRelative(files[j]);
      if PathJoin(folder, files[i]) == PathJoin(folder, files[j]) {
        PathJoinInjective(folder, files[i], files[j]);
      }
    }
  }

  /** The dict the folder loop builds from the given image files. */
  function EmbedFiles(folder: string, files: seq<string>, embed: string -> Option<Embedding>): Dict<string, Embedding> {
    if files == [] then []
    else
      var d := EmbedFiles(folder, files[..|files| - 1], embed);
      var path := PathJoin(folder, files[|files| - 1]);
      match embed(path)
      case None => d
      case Some(e) => Set(d, path, e)
  }

  /** `generate_embeddings_for_folder` as a value. */
  function FolderEmbeddings(folder: string, folderExists: bool, listing: seq<string>,
                            embed: string -> Option<Embedding>): Dict<string, Embedding>
  {
    var files := ImageFiles(listing);
    if !folderExists || files == [] then [] else EmbedFiles(folder, files, embed)
  }

  /** The joined path of each file, in file order. */
  function Paths(folder: string, files: seq<string>): seq<string> {
    seq(|files|, i requires 0 <= i < |files| => PathJoin(folder, files[i]))
  }

  /**
   * The dict holds exactly the joined paths of the files whose embedding
   * succeeded, each once, each with its own embedding.
   */
  lemma EmbedFilesContents(folder: string, files: seq<string>, embed: string -> Option<Embedding>)
    ensures Distinct(Keys(EmbedFiles(folder, files, embed)))
    ensures forall k :: k in Keys(EmbedFiles(folder, files, embed)) <==> k in Paths(folder, files) && embed(k).Some?
    ensures forall i :: 0 <= i < |EmbedFiles(folder, files, embed)| ==>
      embed(EmbedFiles(folder, files, embed)[i].0) == Some(EmbedFiles(folder, files, embed)[i].1)
  {
    EmbedFilesDistinct(folder, files, embed);
    EmbedFilesKeys(folder, files, embed);
    EmbedFilesValues(folder, files, embed);
    var d := EmbedFiles(folder, files, embed);
    forall i | 0 <= i < |d| ensures embed(d[i].0) == Some(d[i].1) {
      assert Keys(d)[i] == d[i].0;
      GetEntry(d, i);
    }
  }

  lemma {:induction false} EmbedFilesDistinct(folder: string, files: seq<string>, embed: string -> Option<Embedding>)
    ensures Distinct(Keys(EmbedFiles(folder, files, embed)))
  {
    if files != [] {
      var prefix := files[..|files| - 1];
      EmbedFilesDistinct(folder, prefix, embed);
      var path := PathJoin(folder, files[|files| - 1]);
      if embed(path).Some? {
        SetDistinct(EmbedFiles(folder, prefix, embed), path, embed(path).value);
      }
    }
  }

  lemma {:induction false} EmbedFilesKeys(folder: string, files: seq<string>, embed: string -> Option<Embedding>)
    ensures forall k :: k in Keys(EmbedFiles(folder, files, embed)) <==> k in Paths(folder, files) && embed(k).Some?
  {
    if files != [] {
      var prefix := files[..|files| - 1];
      EmbedFilesKeys(folder, prefix, embed);
      var path := PathJoin(folder, files[|files| - 1]);
      assert Paths(folder, files) == Paths(folder, prefix) + [path];
      if embed(path).Some? {
        SetKeys(EmbedFiles(folder, prefix, embed), path, embed(path).value);
      }
    }
  }

  lemma {:induction false} EmbedFilesValues(folder: string, files: seq<string>, embed: string -> Option<Embedding>)
    ensures forall k :: k in Keys(EmbedFiles(folder, files, embed)) ==> Get(EmbedFiles(folder, files, embed), k) == embed(k)
  {
    if files != [] {
      var prefix := files[..|files| - 1];
      EmbedFilesValues(folder, prefix, embed);
      var path := PathJoin(folder, files[|files| - 1]);
      var e := embed(path);
      if e.Some? {
        SetKeys(EmbedFiles(folder, prefix, embed), path, e.value);
        forall k | k in Keys(EmbedFiles(folder, files, embed)) && k != path
          ensures Get(EmbedFiles(folder, files, embed), k) == embed(k)
        {
          SetOther(EmbedFiles(folder, prefix, embed), path, e.value, k);
        }
        SetSame(EmbedFiles(folder, prefix, embed), path, e.value);
      }
    }
  }

  /** One more file: its embedding is assigned under its joined path, or it is skipped. */
  lemma EmbedFilesSnoc(folder: string, files: seq<string>, i: nat, embed: string -> Option<Embedding>)
    requires i < |files|
    ensures EmbedFiles(folder, files[..i + 1], embed) ==
      if embed(PathJoin(folder, files[i])).Some?
      then Set(EmbedFiles(folder, files[..i], embed), PathJoin(folder, files[i]), embed(PathJoin(folder, files[i])).value)
      else EmbedFiles(folder, files[..i], embed)
  {
    var prefix := files[..i + 1];
    assert prefix[..|prefix| - 1] == files[..i];
    assert prefix[|prefix| - 1] == files[i];
  }

  /** The paths whose embedding succeeds, in file order. */
  function KeptPaths(folder: string, files: seq<string>, embed: string -> Option<Embedding>): seq<string> {
    if files == [] then []
    else
      var path := PathJoin(folder, files[|files| - 1]);
      KeptPaths(folder, files[..|files| - 1], embed) + (if embed(path).Some? then [path] else [])
  }

  /** When the joined paths are distinct, the dict's keys are the kept paths in file order. */
  lemma {:induction false} EmbedFilesOrder(folder: string, files: seq<string>, embed: string -> Option<Embedding>)
    requires Distinct(Paths(folder, files))
    ensures Keys(EmbedFiles(folder, files, embed)) == KeptPaths(folder, files, embed)
  {
    if files != [] {
      var prefix := files[..|files| - 1];
      var path := PathJoin(folder, files[|files| - 1]);
      var ps := Paths(folder, files);
      assert Paths(folder, prefix) == ps[..|ps| - 1];
      assert path == ps[|ps| - 1];
      EmbedFilesOrder(folder, prefix, embed);
      if embed(path).Some? {
        EmbedFilesKeys(folder, prefix, embed);
        SetKeys(EmbedFiles(folder, prefix, embed), path, embed(path).value);
      }
    }
  }

  /**
   * What the folder's dict holds: nothing for a missing folder; otherwise
   * exactly the joined paths of the image files whose embedding succeeded,
   * each once, each with its own embedding.
   */
  lemma FolderEmbeddingsContents(folder: string, folderExists: bool, listing: seq<string>,
                                 embed: string -> Option<Embedding>)
    ensures var d := FolderEmbeddings(folder, folderExists, listing, embed);
      && (!folderExists ==> d == [])
      && Distinct(Keys(d))
      && (forall k :: k in Keys(d) <==>
            folderExists && k in Paths(folder, ImageFiles(listing)) && embed(k).Some?)
      && (forall i :: 0 <= i < |d| ==> embed(d[i].0) == Some(d[i].1))
  {
    var files := ImageFiles(listing);
    if folderExists && files != [] {
      EmbedFilesContents(folder, files, embed);
      assert FolderEmbeddings(folder, folderExists, listing, embed) == EmbedFiles(folder, files, embed);
    }
  }

  /**
   * `generate_embeddings_for_folder`, with the folder listing and the model as
   * inputs: a missing folder gives `{}`; otherwise each image file is embedded
   * in listing order and the failures are skipped.
   */
  method GenerateEmbeddingsForFolder(folder: string, folderExists: bool, listing: seq<string>,
                                     embed: string -> Option<Embedding>)
    returns (embeddings: Dict<string, Embedding>)
    ensures embeddings == FolderEmbeddings(folder, folderExists, listing, embed)
    ensures !folderExists ==> embeddings == []
    ensures Distinct(Keys(embeddings))
    ensures forall k :: k in Keys(embeddings) <==>
      folderExists && k in Paths(folder, ImageFiles(listing)) && embed(k).Some?
    ensures forall i :: 0 <= i < |embeddings| ==> embed(embeddings[i].0) == Some(embeddings[i].1)
  {
    var files := ImageFiles(listing);
    if !folderExists || files == [] {
      FolderEmbeddingsContents(folder, folderExists, listing, embed);
      return [];
    }
    embeddings := [];
    for i := 0 to |files|
      invariant embeddings == EmbedFiles(folder, files[..i], embed)
    {
      EmbedFilesSnoc(folder, files, i, embed);
      var path := PathJoin(folder, files[i]);
      var e := embed(path);
      if e.Some? {
        embeddings := Set(embeddings, path, e.value);
      }
    }
    assert files[..|files|] == files;
    FolderEmbeddingsContents(folder, folderExists, listing, embed);
  }

  /** Every vector of the database has the query's length, as `np.dot` demands. */
  predicate Conformable(query: Embedding, database: Dict<string, Embedding>) {
    forall i :: 0 <= i < |database| ==> |database[i].1| == |query|
  }

  /** The (path, similarity) list: the database's paths in dict order, each with its dot product. */
  function Scores(query: Embedding, database: Dict<string, Embedding>): (s: seq<(string, real)>)
    requires Conformable(query, database)
    ensures Keys(s) == Keys(database)
    ensures forall i :: 0 <= i < |s| ==> s[i].1 == Similarity(query, database[i].1)
  {
    seq(|database|, i requires 0 <= i < |database| => (database[i].0, Similarity(query, database[i].1)))
  }

  /** `find_similar_images` as a value: the stable descending ranking, cut to `top_k`. */
  function TopMatches(query: Embedding, database: Dict<string, Embedding>, topK: nat): seq<(string, real)>
    requires Conformable(query, database)
  {
    TopK(SortDesc(Scores(query, database)), topK)
  }

  /**
   * `find_similar_images`: the `top_k` entries of the database most similar to
   * the query, best first; equal scores keep the database's order.
   */
  method FindSimilarImages(query: Embedding, database: Dict<string, Embedding>, topK: nat)
    returns (results: seq<(string, real)>)
    requires Distinct(Keys(database))
    requires Conformable(query, database)
    ensures results == TopMatches(query, database, topK)
    ensures |results| == Min(topK, |database|)
    ensures NonIncreasing(results)
    ensures Distinct(Keys(results))
    ensures forall i :: 0 <= i < |results| ==>
      exists j :: 0 <= j < |database| && results[i] == (database[j].0, Similarity(query, database[j].1))
    ensures forall i, j :: 0 <= i < |results| && 0 <= j < |database| && database[j].0 !in Keys(results) ==>
      Similarity(query, database[j].1) <= results[i].1
    ensures forall v :: WithScore(results, v) <= WithScore(Scores(query, database), v)
  {
    var similarities: seq<(string, real)> := [];
    for i := 0 to |database|
      invariant |similarities| == i
      invariant forall k :: 0 <= k < i ==> similarities[k] == (database[k].0, Similarity(query, database[k].1))
    {
      var (path, embedding) := database[i];
      similarities := similarities + [(path, Similarity(query, embedding))];
    }
    assert similarities == Scores(query, database);
    var all := similarities;
    similarities := SortDesc(similarities);
    results := similarities[..Min(topK, |similarities|)];
    TopKOfRanked(similarities, topK);
    forall v ensures WithScore(results, v) <= WithScore(all, v) {
      RankedTopKStable(all, topK, v);
    }
    SortedMembers(query, database, all, similarities, results);
  }

  /** What ranking the scored database guarantees about its members and its cut. */
  lemma SortedMembers(query: Embedding, database: Dict<string, Embedding>,
                      all: seq<(string, real)>, sorted: seq<(string, real)>, results: seq<(string, real)>)
    requires Distinct(Keys(database)) && Conformable(query, database)
    requires all == Scores(query, database) && sorted == SortDesc(all)
    requires |results| <= |sorted| && results == sorted[..|results|]
    ensures Distinct(Keys(results))
    ensures forall i :: 0 <= i < |results| ==>
      exists j :: 0 <= j < |database| && results[i] == (database[j].0, Similarity(query, database[j].1))
    ensures forall i, j :: 0 <= i < |results| && 0 <= j < |database| && database[j].0 !in Keys(results) ==>
      Similarity(query, database[j].1) <= results[i].1
  {
    SortedDistinct(database, all, sorted, results);
    assert NonIncreasing(sorted) && multiset(sorted) == multiset(all);
    forall i | 0 <= i < |results|
      ensures exists j :: 0 <= j < |database| && results[i] == (database[j].0, Similarity(query, database[j].1))
    {
      assert sorted[i] in multiset(all);
      var j :| 0 <= j < |all| && all[j] == sorted[i];
    }
    forall i, j | 0 <= i < |results| && 0 <= j < |database| && database[j].0 !in Keys(results)
      ensures Similarity(query, database[j].1) <= results[i].1
    {
      SortedOmitted(all, sorted, results, j);
    }
  }

  /** Distinct paths stay distinct through the ranking and the cut. */
  lemma SortedDistinct(database: Dict<string, Embedding>,
                       all: seq<(string, real)>, sorted: seq<(string, real)>, results: seq<(string, real)>)
    requires Distinct(Keys(database)) && Keys(all) == Keys(database) && sorted == SortDesc(all)
    requires |results| <= |sorted| && results == sorted[..|results|]
    ensures Distinct(Keys(results))
  {
    var path := (p: string) => p;
    assert DistinctBy(all, path) by {
      forall i, j | 0 <= i < j < |all| ensures path(all[i].0) != path(all[j].0) {
        assert Keys(all)[i] == all[i].0 && Keys(all)[j] == all[j].0;
      }
    }
    SortDescDistinctBy(all, path);
    forall i, j | 0 <= i < j < |results| ensures Keys(results)[i] != Keys(results)[j] {
      assert path(sorted[i].0) != path(sorted[j].0);
    }
  }

  /** An entry whose path is not in the cut scores no higher than anything kept. */
  lemma SortedOmitted(all: seq<(string, real)>, sorted: seq<(string, real)>, results: seq<(string, real)>, j: nat)
    requires NonIncreasing(sorted) && multiset(sorted) == multiset(all) && j < |all|
    requires |results| <= |sorted| && results == sorted[..|results|]
    requires all[j].0 !in Keys(results)
    ensures forall i :: 0 <= i < |results| ==> all[j].1 <= results[i].1
  {
    forall u | 0 <= u < |results| ensures results[u] != all[j] {
      assert Keys(results)[u] == results[u].0;
    }
    OmittedScoresNoHigher(all, sorted, |results|, all[j]);
  }
}
