/** The named timeout presets of config.py: the `TimeoutRecipe` names and the ordered
    `DOWNLOAD_RECIPES` table from name to configuration. */
module Config {
  import opened Wrappers

  datatype DownloadConfig = DownloadConfig(timeout: int, description: string)

  /** The three values of the `TimeoutRecipe` literal type. */
  datatype TimeoutRecipe = ForLargeFiles | Balanced | ForSmallFiles {
    function Name(): string {
      match this
      case ForLargeFiles => "FOR_LARGE_FILES"
      case Balanced => "BALANCED"
      case ForSmallFiles => "FOR_SMALL_FILES"
    }
  }

  /** `DOWNLOAD_RECIPES`, as its entries are listed (a Python dict keeps insertion order). */
  const DownloadRecipes: seq<(string, DownloadConfig)> := [
    ("FOR_LARGE_FILES", DownloadConfig(300, LargeFilesDescription)),
    ("BALANCED", DownloadConfig(60, BalancedDescription)),
    ("FOR_SMALL_FILES", DownloadConfig(15, SmallFilesDescription))
  ]

  const LargeFilesDescription: string :=
    "For downloading large files (several GB to tens of GB). Uses longer timeout and lower concurrency."
  const BalancedDescription: string := "Balanced configuration for mixed file sizes."
  const SmallFilesDescription: string :=
    "For downloading small files (KB-MB range). Uses shorter timeout for faster feedback."

  /** The entry stored under `name` in an association table, if any. */
  function Lookup(table: seq<(string, DownloadConfig)>, name: string): (r: Option<DownloadConfig>)
    ensures r.Some? <==> exists i :: 0 <= i < |table| && table[i].0 == name
    ensures r.Some? ==> exists i :: 0 <= i < |table| && table[i] == (name, r.value)
  {
    if table == [] then None
    else if table[0].0 == name then Some(table[0].1)
    else
      var r := Lookup(table[1..], name);
      assert forall i :: 0 < i < |table| ==> table[i] == table[1..][i - 1];
      r
  }

  /** The keys of `DOWNLOAD_RECIPES` in table order. */
  function RecipeNames(): (names: seq<string>)
    ensures |names| == |DownloadRecipes|
    ensures forall i :: 0 <= i < |names| ==> names[i] == DownloadRecipes[i].0
  {
    seq(|DownloadRecipes|, i requires 0 <= i < |DownloadRecipes| => DownloadRecipes[i].0)
  }

  /** `DOWNLOAD_RECIPES[name]` when `name in DOWNLOAD_RECIPES`. */
  function LookupRecipe(name: string): (r: Option<DownloadConfig>)
    ensures r.Some? <==> name in RecipeNames()
    ensures r.Some? ==> r.value.timeout > 0
  {
    Lookup(DownloadRecipes, name)
  }

  /** The table's keys are the three `TimeoutRecipe` literals, in declaration order. */
  lemma RecipeNamesInOrder()
    ensures RecipeNames() == [ForLargeFiles.Name(), Balanced.Name(), ForSmallFiles.Name()]
  {
  }

  /** Each recipe name resolves to its own entry, with the documented timeout. */
  lemma RecipeTable()
    ensures LookupRecipe("FOR_LARGE_FILES") == Some(DownloadRecipes[0].1) && DownloadRecipes[0].1.timeout == 300
    ensures LookupRecipe("BALANCED") == Some(DownloadRecipes[1].1) && DownloadRecipes[1].1.timeout == 60
    ensures LookupRecipe("FOR_SMALL_FILES") == Some(DownloadRecipes[2].1) && DownloadRecipes[2].1.timeout == 15
  {
  }

  /** A name is in the table exactly when it is one of the `TimeoutRecipe` literals. */
  lemma RecipeNamesAreTheLiterals(name: string)
    ensures LookupRecipe(name).Some? <==> exists recipe: TimeoutRecipe :: recipe.Name() == name
  {
    RecipeNamesInOrder();
    if LookupRecipe(name).Some? {
      var i :| 0 <= i < 3 && RecipeNames()[i] == name;
      var recipe := [ForLargeFiles, Balanced, ForSmallFiles][i];
      assert recipe.Name() == name;
    }
  }
}
