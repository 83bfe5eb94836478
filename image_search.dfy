/**
 * The reverse image search engine: one piece of state, the database of
 * embeddings keyed by image path, which the constructor may load, indexing
 * replaces, and searching only reads; and the grid the results are laid out on.
 * Pickle files, the image model and matplotlib are inputs or left out: the
 * stored dict, the folder listing and the model are parameters.
 */
module ImageSearch {
  import opened Wrappers
  import opened Dicts
  import opened Ranking
  import opened ImageEmbeddings
  import opened Vectors

  /** A subplot grid, `n_rows` by `n_cols`. */
  datatype Grid = Grid(rows: nat, cols: nat)

  /** What a cell of the figure ends up showing. */
  datatype Panel = Empty | QueryImage | ResultImage(path: string, similarity: real) | Off

  /**
   * The layout of `display_results` for `n` results plus the query image: at
   * most three columns, and just enough rows for all `n + 1` images, so the
   * last row is never wholly empty.
   */
  function GridFor(n: nat): (g: Grid)
    requires n >= 1
    ensures g.cols == Min(3, n + 1)
    ensures 2 <= g.cols <= 3
    ensures g.cols == 3 || g.cols == n + 1
    ensures g.rows * g.cols >= n + 1
    ensures g.rows * g.cols - (n + 1) < g.cols
  {
    var cols := Min(3, n + 1);
    Grid((n + 1 + cols - 1) / cols, cols)
  }

  /** The arguments under which `__init__` loads a stored database: a non-empty path that exists. */
  predicate LoadsStored(embeddingsPath: Option<string>, pathExists: bool) {
    embeddingsPath.Some? && embeddingsPath.value != [] && pathExists
  }

  class ReverseImageSearch {
    /** `database_embeddings`: image path to embedding, in insertion order. */
    var databaseEmbeddings: Dict<string, Embedding>

    /** A dict never holds a key twice. */
    predicate Valid()
      reads this
    {
      Distinct(Keys(databaseEmbeddings))
    }

    /**
     * `__init__`: starts from `{}` and takes the stored dict only when a
     * non-empty path was given and the file exists.
     */
    constructor (embeddingsPath: Option<string>, pathExists: bool, stored: Dict<string, Embedding>)
      requires Distinct(Keys(stored))
      ensures Valid()
      ensures LoadsStored(embeddingsPath, pathExists) ==> databaseEmbeddings == stored
      ensures !LoadsStored(embeddingsPath, pathExists) ==> databaseEmbeddings == []
    {
      databaseEmbeddings := [];
      if embeddingsPath.Some? && embeddingsPath.value != [] && pathExists {
        databaseEmbeddings := stored;
      }
    }

    /**
     * `index_images`: the database becomes the folder's embeddings, whatever it
     * held before; `saved` says whether the result was written out, which
     * happens exactly when it is non-empty.
     */
    method IndexImages(folder: string, folderExists: bool, listing: seq<string>,
                       embed: string -> Option<Embedding>)
      returns (saved: bool)
      modifies this
      ensures Valid()
      ensures databaseEmbeddings == FolderEmbeddings(folder, folderExists, listing, embed)
      ensures saved <==> databaseEmbeddings != []
    {
      databaseEmbeddings := GenerateEmbeddingsForFolder(folder, folderExists, listing, embed);
      saved := databaseEmbeddings != [];
    }

    /**
     * `search`: nothing on an empty database, without asking the model for the
     * query's embedding (`queried` says whether it was asked); nothing when the
     * query cannot be embedded; otherwise exactly `find_similar_images`.
     */
    method Search(queryPath: string, topK: nat, embed: string -> Option<Embedding>)
      returns (results: seq<(string, real)>, queried: bool)
      requires Valid()
      requires embed(queryPath).Some? ==> Conformable(embed(queryPath).value, databaseEmbeddings)
      ensures databaseEmbeddings == [] ==> results == [] && !queried
      ensures databaseEmbeddings != [] ==> queried
      ensures embed(queryPath).None? ==> results == []
      ensures databaseEmbeddings != [] && embed(queryPath).Some? ==>
        results == TopMatches(embed(queryPath).value, databaseEmbeddings, topK) &&
        |results| == Min(topK, |databaseEmbeddings|) &&
        NonIncreasing(results) && Distinct(Keys(results))
    {
      if databaseEmbeddings == [] {
        return [], false;
      }
      var queryEmbedding := embed(queryPath);
      if queryEmbedding.None? {
        return [], true;
      }
      results := FindSimilarImages(queryEmbedding.value, databaseEmbeddings, topK);
      queried := true;
    }

    /**
     * `display_results`: no figure for no results; otherwise a grid whose
     * first cell shows the query, whose next `n` cells show the results in
     * order (the loop's stop at the cell count never cuts one off), and whose
     * remaining cells are switched off.
     */
    method DisplayResults(results: seq<(string, real)>) returns (grid: Option<Grid>, panels: seq<Panel>)
      ensures results == [] ==> grid == None && panels == []
      ensures results != [] ==> grid == Some(GridFor(|results|))
      ensures grid.Some? ==> |panels| == grid.value.rows * grid.value.cols
      ensures results != [] ==> panels[0] == QueryImage
      ensures forall i :: 0 <= i < |results| ==> panels[i + 1] == ResultImage(results[i].0, results[i].1)
      ensures forall i :: |results| < i < |panels| ==> panels[i] == Off
    {
      if results == [] {
        return None, [];
      }
      var n := |results|;
      var g := GridFor(n);
      var cells := g.rows * g.cols;
      var axes := new Panel[cells](_ => Empty);
      axes[0] := QueryImage;
      var i := 1;
      while i <= n
        invariant 1 <= i <= n + 1
        invariant forall k :: 1 <= k < i ==> axes[k] == ResultImage(results[k - 1].0, results[k - 1].1)
        invariant axes[0] == QueryImage
      {
        if i >= axes.Length {
          break;
        }
        axes[i] := ResultImage(results[i - 1].0, results[i - 1].1);
        i := i + 1;
      }
      for j := n + 1 to axes.Length
        invariant forall k :: 1 <= k <= n ==> axes[k] == ResultImage(results[k - 1].0, results[k - 1].1)
        invariant forall k :: n + 1 <= k < j ==> axes[k] == Off
        invariant axes[0] == QueryImage
      {
        axes[j] := Off;
      }
      grid := Some(g);
      panels := axes[..];
    }
  }
}
