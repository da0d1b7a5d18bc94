/**
 * File names, paths and the recipes archive of `pyprika_classes.py`:
 * `format_filename`, the path getters of `pyprika_files` and the
 * "add only if the entry name is new" rule of `add_to_pyprikarecipes`.
 * The directory of the program (`get_path()`) is the opaque prefix `root`.
 */
module Files {
  import Recipe

  /** The characters `format_filename` keeps: `"-_.() "`, ASCII letters and digits. */
  predicate IsValidFilenameChar(c: char) {
    c in "-_.() " || 'a' <= c <= 'z' || 'A' <= c <= 'Z' || '0' <= c <= '9'
  }

  predicate AllValid(s: string) {
    forall i :: 0 <= i < |s| ==> IsValidFilenameChar(s[i])
  }

  /** `format_filename`: the characters of `s` that are valid, in order. */
  function FormatFilename(s: string): (r: string)
    ensures AllValid(r) && |r| <= |s|
  {
    if s == [] then []
    else (if IsValidFilenameChar(s[0]) then [s[0]] else []) + FormatFilename(s[1..])
  }

  /** `sub` is `s` with some characters left out. */
  predicate IsSubsequence(sub: string, s: string) {
    if sub == [] then true
    else if s == [] then false
    else if sub[0] == s[0] then IsSubsequence(sub[1..], s[1..])
    else IsSubsequence(sub, s[1..])
  }

  /** Filtering distributes over concatenation. */
  lemma {:induction false} FormatFilenameAppend(a: string, b: string)
    ensures FormatFilename(a + b) == FormatFilename(a) + FormatFilename(b)
  {
    if a == [] {
      assert a + b == b;
    } else {
      var c := if IsValidFilenameChar(a[0]) then [a[0]] else [];
      var ab := a + b;
      assert ab[0] == a[0] && ab[1..] == a[1..] + b;
      assert FormatFilename(ab) == c + FormatFilename(a[1..] + b);
      FormatFilenameAppend(a[1..], b);
      assert c + (FormatFilename(a[1..]) + FormatFilename(b)) == (c + FormatFilename(a[1..])) + FormatFilename(b);
    }
  }

  /** The result keeps the order of the input. */
  lemma {:induction false} FormatFilenameSubsequence(s: string)
    ensures IsSubsequence(FormatFilename(s), s)
  {
    if s != [] {
      var rest := FormatFilename(s[1..]);
      FormatFilenameSubsequence(s[1..]);
      if IsValidFilenameChar(s[0]) {
        assert FormatFilename(s)[1..] == rest;
      } else {
        assert FormatFilename(s) == rest;
        assert rest != [] ==> rest[0] != s[0];
      }
    }
  }

  /** Every valid character is kept as often as it occurs, and every other one is dropped. */
  lemma {:induction false} FormatFilenameCounts(s: string, c: char)
    ensures multiset(FormatFilename(s))[c] == if IsValidFilenameChar(c) then multiset(s)[c] else 0
  {
    if s != [] {
      FormatFilenameCounts(s[1..], c);
      assert s == [s[0]] + s[1..];
      assert multiset(s) == multiset([s[0]]) + multiset(s[1..]);
    }
  }

  /** A name is left unchanged exactly when all of its characters are valid. */
  lemma {:induction false} FormatFilenameFixed(s: string)
    ensures FormatFilename(s) == s <==> AllValid(s)
  {
    if s != [] {
      FormatFilenameFixed(s[1..]);
      if !IsValidFilenameChar(s[0]) {
        assert |FormatFilename(s)| < |s|;
      }
    }
  }

  lemma {:induction false} FormatFilenameIdempotent(s: string)
    ensures FormatFilename(FormatFilename(s)) == FormatFilename(s)
  {
    FormatFilenameFixed(FormatFilename(s));
  }

  /** A formatted name cannot name another directory. */
  lemma {:induction false} FormatFilenameNoSlash(s: string)
    ensures '/' !in FormatFilename(s)
  {
  }

  /** `path.basename`: the part of `p` after its last `'/'`. */
  function Basename(p: string): (b: string)
    ensures '/' !in b && |b| <= |p| && b == p[|p| - |b|..]
    ensures |b| < |p| ==> p[|p| - |b| - 1] == '/'
  {
    if p == [] || p[|p| - 1] == '/' then []
    else Basename(p[..|p| - 1]) + [p[|p| - 1]]
  }

  /** The base name of a path in a directory is the file name. */
  lemma {:induction false} BasenameOfJoin(dir: string, name: string)
    requires dir == [] || dir[|dir| - 1] == '/'
    requires '/' !in name
    ensures Basename(dir + name) == name
  {
    if name != [] {
      var n := |name| - 1;
      var p := dir + name;
      assert p[..|p| - 1] == dir + name[..n];
      assert name[n] in name && p[|p| - 1] == name[n];
      assert Basename(p) == Basename(p[..|p| - 1]) + [name[n]];
      BasenameOfJoin(dir, name[..n]);
      assert name == name[..n] + [name[n]];
    } else {
      assert dir + name == dir;
    }
  }

  const RecipeExtension: string := ".paprikarecipe"
  const RecipesExtension: string := ".paprikarecipes"
  const GzipExtension: string := ".gz"
  /** The archive `get_recipes_file` names while `recipes_file` is empty. */
  const DefaultRecipesName: string := "recipes_import"

  /**
   * The archive path `get_recipes_file` gives for a `recipes_file` value: the
   * directory, then `recipes_file` or `recipes_import` when it is empty, then
   * the archives extension.
   */
  function RecipesFilePath(root: string, recipesFile: string): (p: string)
    ensures var base := if recipesFile != [] then recipesFile else DefaultRecipesName;
      |p| == |root| + |base| + 15 && p[..|root|] == root && p[|root|..|p| - 15] == base
      && p[|p| - 15..] == RecipesExtension
  {
    if recipesFile != [] then root + recipesFile + RecipesExtension
    else root + DefaultRecipesName + RecipesExtension
  }

  /**
   * Each source site has its own archive, ending in the archives extension;
   * an empty `recipes_file` gives the archive of `recipes_import`.
   */
  lemma {:induction false} RecipesFilePathShape(root: string, s: string, t: string)
    ensures var p := RecipesFilePath(root, s); p[..|root|] == root && p[|p| - 15..] == ".paprikarecipes"
    ensures RecipesFilePath(root, "") == RecipesFilePath(root, DefaultRecipesName)
    ensures s != [] && t != [] && RecipesFilePath(root, s) == RecipesFilePath(root, t) ==> s == t
  {
    if s != [] && t != [] && RecipesFilePath(root, s) == RecipesFilePath(root, t) {
      var p := RecipesFilePath(root, s);
      assert s == p[|root|..|p| - 15];
    }
  }

  /** A recipe file in a directory has the slash-free name plus the recipe extension as its base name. */
  lemma {:induction false} EntryNameOfFile(dir: string, x: string)
    requires (dir == [] || dir[|dir| - 1] == '/') && '/' !in x
    ensures Basename(dir + x + RecipeExtension) == x + RecipeExtension
  {
    var f := x + RecipeExtension;
    assert dir + x + RecipeExtension == dir + f;
    forall i | 0 <= i < |f| ensures f[i] != '/' {
      if i < |x| {
        assert f[i] == x[i] && x[i] in x;
      } else {
        assert f[i] == RecipeExtension[i - |x|];
      }
    }
    BasenameOfJoin(dir, f);
  }

  /** One member of the recipes archive: its name and the serialised recipe. */
  datatype Entry = Entry(name: string, content: Recipe.Dict)

  function Names(entries: seq<Entry>): (ns: seq<string>)
    ensures |ns| == |entries| && forall i :: 0 <= i < |entries| ==> ns[i] == entries[i].name
  {
    seq(|entries|, i requires 0 <= i < |entries| => entries[i].name)
  }

  predicate UniqueNames(entries: seq<Entry>) {
    forall i, j :: 0 <= i < j < |entries| ==> entries[i].name != entries[j].name
  }

  /**
   * The membership rule of `add_to_pyprikarecipes`: an entry is written only
   * when no entry of that name is in the archive; otherwise the archive is
   * left as it is ("Skipped").
   */
  function AddEntry(entries: seq<Entry>, name: string, content: Recipe.Dict): (r: seq<Entry>)
    ensures entries <= r && |r| <= |entries| + 1 && name in Names(r)
    ensures r == entries <==> name in Names(entries)
  {
    if name in Names(entries) then entries
    else
      var r := entries + [Entry(name, content)];
      assert Names(r)[|entries|] == name;
      r
  }

  /** Adding keeps names unique, makes the name present, and keeps every earlier entry. */
  lemma {:induction false} AddEntryUnique(entries: seq<Entry>, name: string, content: Recipe.Dict)
    requires UniqueNames(entries)
    ensures UniqueNames(AddEntry(entries, name, content))
    ensures name in Names(AddEntry(entries, name, content))
    ensures entries <= AddEntry(entries, name, content)
  {
    var e := AddEntry(entries, name, content);
    if name !in Names(entries) {
      forall i | 0 <= i < |entries| ensures e[i].name != name {
        assert Names(entries)[i] == entries[i].name;
      }
      assert Names(e)[|entries|] == name;
    }
  }

  /** A second add of the same name changes nothing, whatever its content. */
  lemma {:induction false} AddEntryAgain(entries: seq<Entry>, name: string, c1: Recipe.Dict, c2: Recipe.Dict)
    ensures AddEntry(AddEntry(entries, name, c1), name, c2) == AddEntry(entries, name, c1)
  {
    var e := AddEntry(entries, name, c1);
    if name !in Names(entries) {
      assert Names(e)[|entries|] == name;
    }
  }

  /** Adding an entry to one archive keeps the names of every archive unique. */
  lemma {:induction false} AddKeepsUnique(archives: map<string, seq<Entry>>, zip: string, name: string, content: Recipe.Dict)
    requires forall p :: p in archives ==> UniqueNames(archives[p])
    ensures var entries := if zip in archives then archives[zip] else [];
      var after := archives[zip := AddEntry(entries, name, content)];
      (forall p :: p in after ==> UniqueNames(after[p]))
      && (name in Names(entries) ==> after == archives)
      && (name !in Names(entries) ==> after == archives[zip := entries + [Entry(name, content)]])
  {
    var entries := if zip in archives then archives[zip] else [];
    AddEntryUnique(entries, name, content);
  }

  /** `pyprika_files`: where recipe files go, and the archives written so far. */
  class PaprikaFiles {
    /** `get_path()`: the directory of the program, ending in `'/'`. */
    const root: string
    /** `recipes_file`: the archive base name, set per source site by the caller. */
    var recipesFile: string
    /** The entries of each archive written, by archive path. */
    var archives: map<string, seq<Entry>>

    ghost predicate Valid()
      reads this
    {
      |root| > 0 && root[|root| - 1] == '/' &&
      forall p :: p in archives ==> UniqueNames(archives[p])
    }

    constructor(root: string)
      requires |root| > 0 && root[|root| - 1] == '/'
      ensures Valid() && this.root == root && recipesFile == "" && archives == map[]
    {
      this.root := root;
      recipesFile := "";
      archives := map[];
    }

    /** `get_filepath`: the file `filename` in the program directory. */
    function GetFilepath(filename: string): (p: string)
      ensures |p| == |root| + |filename| && p[..|root|] == root && p[|root|..] == filename
    {
      root + filename
    }

    /** `get_gz_file`: the directory, the name, then `.gz`. */
    function GetGzFile(filename: string): (p: string)
      ensures |p| == |root| + |filename| + 3 && p[..|root|] == root
      ensures p[|root|..|p| - 3] == filename && p[|p| - 3..] == GzipExtension
    {
      GetFilepath(filename) + GzipExtension
    }

    /** `get_paprika_file`: the directory, the name, then `.paprikarecipe`. */
    function GetPaprikaFile(filename: string): (p: string)
      ensures |p| == |root| + |filename| + 14 && p[..|root|] == root
      ensures p[|root|..|p| - 14] == filename && p[|p| - 14..] == RecipeExtension
    {
      GetFilepath(filename) + RecipeExtension
    }

    /** `get_recipes_file`: the archive named after `recipes_file`, or `recipes_import` while that is empty. */
    function GetRecipesFile(): (p: string)
      reads this
      ensures var base := if recipesFile != [] then recipesFile else DefaultRecipesName;
        |p| == |root| + |base| + 15 && p[..|root|] == root && p[|root|..|p| - 15] == base
        && p[|p| - 15..] == RecipesExtension
    {
      RecipesFilePath(root, recipesFile)
    }

    /**
     * The two file getters put the file in `root` and end it with their own
     * extension; file names that differ give paths that differ.
     */
    lemma PathsShape(f: string, g: string)
      ensures GetGzFile(f)[..|root|] == root && GetGzFile(f)[|GetGzFile(f)| - 3..] == ".gz"
      ensures GetPaprikaFile(f)[..|root|] == root
      ensures GetPaprikaFile(f)[|GetPaprikaFile(f)| - 14..] == ".paprikarecipe"
      ensures GetGzFile(f) == GetGzFile(g) ==> f == g
      ensures GetPaprikaFile(f) == GetPaprikaFile(g) ==> f == g
    {
      if GetGzFile(f) == GetGzFile(g) {
        assert f == GetGzFile(f)[|root|..|GetGzFile(f)| - 3];
      }
      if GetPaprikaFile(f) == GetPaprikaFile(g) {
        assert f == GetPaprikaFile(f)[|root|..|GetPaprikaFile(f)| - 14];
      }
    }

    /** The archive entry name of a recipe: its formatted name with the recipe extension. */
    lemma EntryNameIsFormatted(name: string)
      requires |root| > 0 && root[|root| - 1] == '/'
      ensures Basename(GetPaprikaFile(FormatFilename(name))) == FormatFilename(name) + RecipeExtension
    {
      var x := FormatFilename(name);
      FormatFilenameNoSlash(name);
      assert GetPaprikaFile(x) == root + x + RecipeExtension;
      EntryNameOfFile(root, x);
    }

    /**
     * `add_to_pyprikarecipes`: the recipe file is named after the formatted
     * recipe name and added to the archive `get_recipes_file()` unless an
     * entry of that name is already there. `saved` tells which ("Saved" or
     * "Skipped").
     */
    method AddToPaprikaRecipes(name: string, dic: Recipe.Dict) returns (saved: bool)
      requires Valid()
      modifies this
      ensures Valid() && recipesFile == old(recipesFile)
      ensures var zip := old(GetRecipesFile());
        var before := if zip in old(archives) then old(archives)[zip] else [];
        var entry := FormatFilename(name) + RecipeExtension;
        archives == old(archives)[zip := AddEntry(before, entry, dic)] &&
        (saved <==> entry !in Names(before))
    {
      var filename := FormatFilename(name);
      var paprikafile := GetPaprikaFile(filename);
      var zip := GetRecipesFile();
      var entries := if zip in archives then archives[zip] else [];
      var entry := Basename(paprikafile);
      EntryNameIsFormatted(name);
      AddKeepsUnique(archives, zip, entry, dic);
      if entry !in Names(entries) {
        archives := archives[zip := entries + [Entry(entry, dic)]];
        saved := true;
      } else {
        assert zip in archives;
        saved := false;
      }
    }
  }
}
