/**
 * The page-to-recipe logic of `scraper.py`. Each BeautifulSoup lookup is an
 * input: the text of the element when it is found (`Option<string>`), or the
 * texts of its `<li>` / `<a>` children (`Option<seq<string>>`). An HTTP answer
 * is a `Page` holding its status code and those lookups.
 */
module Scraper {
  import opened Wrappers
  import opened PyStr
  import Recipe
  import Files

  // ---------------------------------------------------------------- replacement tables

  /** A replacement dict: (key, value) pairs in the order `items()` yields them. */
  type Table = seq<(string, string)>

  const ServingsReplace: Table := [("Serves", ""), (" - ", "-")]
  const CooktimeReplace: Table := [("Cooks In", "")]
  const NotesReplace: Table := [("\U{201C}", ""), ("\U{201D}", "")]

  /** One pass of the loop body: `text = text.lower().replace(key.lower(), val)`. */
  function ReplaceStep(s: string, e: (string, string)): string {
    Replace(Lower(s), Lower(e.0), e.1)
  }

  /** The text after the loop has run over the pairs of `t`, in order. */
  function ApplyTable(s: string, t: Table): string
    decreases |t|
  {
    if t == [] then s else ReplaceStep(ApplyTable(s, t[..|t| - 1]), t[|t| - 1])
  }

  /** The result of `get_servings`, `get_cooktime` and `get_notes`: `""` when the element is absent. */
  function CleanedText(text: Option<string>, t: Table): string {
    match text
    case None => ""
    case Some(s) => Strip(ApplyTable(s, t))
  }

  /**
   * The shared body of `get_servings`, `get_cooktime` and `get_notes`:
   * lower-case and replace once per pair of the table, then strip.
   */
  method CleanField(text: Option<string>, table: Table) returns (r: string)
    ensures r == CleanedText(text, table)
    ensures NoEdgeSpace(r)
  {
    match text {
      case None =>
        r := "";
      case Some(s) =>
        var cleaned := s;
        for i := 0 to |table|
          invariant cleaned == ApplyTable(s, table[..i])
        {
          assert table[..i + 1][..i] == table[..i];
          cleaned := Replace(Lower(cleaned), Lower(table[i].0), table[i].1);
        }
        assert table[..|table|] == table;
        r := Strip(cleaned);
    }
  }

  method GetServings(text: Option<string>) returns (r: string)
    ensures r == CleanedText(text, ServingsReplace)
  {
    r := CleanField(text, ServingsReplace);
  }

  method GetCooktime(text: Option<string>) returns (r: string)
    ensures r == CleanedText(text, CooktimeReplace)
  {
    r := CleanField(text, CooktimeReplace);
  }

  method GetNotes(text: Option<string>) returns (r: string)
    ensures r == CleanedText(text, NotesReplace)
  {
    r := CleanField(text, NotesReplace);
  }

  lemma {:induction false} LowerSlice(s: string, i: nat, j: nat)
    requires i <= j <= |s| && IsLowerStr(s)
    ensures IsLowerStr(s[i..j])
  {
    forall k | 0 <= k < j - i ensures !IsUpper(s[i..j][k]) {
      assert s[i..j][k] == s[i + k];
    }
  }

  /** A replacement pass leaves no upper-case letter when its value has none. */
  lemma {:induction false} ReplaceStepLower(s: string, e: (string, string))
    requires IsLowerStr(e.1)
    ensures IsLowerStr(ReplaceStep(s, e))
  {
    var l := Lower(s);
    var r := ReplaceStep(s, e);
    forall i | 0 <= i < |r| ensures !IsUpper(r[i]) {
      if r[i] in l {
        var j :| 0 <= j < |l| && l[j] == r[i];
      } else {
        var j :| 0 <= j < |e.1| && e.1[j] == r[i];
      }
    }
  }

  /**
   * Once the element is found, the cleaned text is lower-case and has no
   * whitespace at either end, for a non-empty table whose last value is
   * lower-case; an absent element gives `""`.
   */
  lemma {:induction false} CleanedTextShape(text: Option<string>, t: Table)
    requires t != [] && IsLowerStr(t[|t| - 1].1)
    ensures IsLowerStr(CleanedText(text, t)) && NoEdgeSpace(CleanedText(text, t))
    ensures text == None ==> CleanedText(text, t) == ""
  {
    if text.Some? {
      var a := ApplyTable(text.value, t);
      ReplaceStepLower(ApplyTable(text.value, t[..|t| - 1]), t[|t| - 1]);
      var i := |a| - |StripLeft(a)|;
      LowerSlice(a, i, i + |Strip(a)|);
    }
  }

  /** The three tables of the scraper all qualify. */
  lemma {:induction false} TablesLower()
    ensures IsLowerStr(ServingsReplace[1].1) && IsLowerStr(CooktimeReplace[0].1) && IsLowerStr(NotesReplace[1].1)
  {
    assert ServingsReplace[1].1 == "-";
  }

  /** `lower` neither creates nor removes a character that is not a letter. */
  lemma {:induction false} LowerKeepsOut(s: string, c: char)
    requires !IsLetter(c) && c !in s
    ensures c !in Lower(s)
  {
    var l := Lower(s);
    forall i | 0 <= i < |l| ensures l[i] != c {
      if !IsLetter(s[i]) {
        assert l[i] == s[i];
      }
    }
  }

  lemma {:induction false} LowerOfNonLetter(c: char)
    requires !IsLetter(c)
    ensures Lower([c]) == [c]
  {
  }

  /** A replacement pass keeps out a non-letter that is neither in its input nor in its value. */
  lemma {:induction false} ReplaceStepKeepsOut(s: string, e: (string, string), c: char)
    requires !IsLetter(c) && c !in s && c !in e.1
    ensures c !in ReplaceStep(s, e)
  {
    LowerKeepsOut(s, c);
  }

  /**
   * A pair whose key is the single non-letter `c` removes it, and no later
   * pass brings it back when no later value holds it.
   */
  lemma {:induction false} ApplyTableRemoves(s: string, t: Table, j: nat, c: char)
    requires j < |t| && t[j].0 == [c] && !IsLetter(c)
    requires forall k :: j <= k < |t| ==> c !in t[k].1
    ensures c !in ApplyTable(s, t)
    decreases |t|
  {
    var n := |t| - 1;
    var prev := ApplyTable(s, t[..n]);
    if j == n {
      LowerOfNonLetter(c);
      ReplaceRemovesChar(Lower(prev), c, t[n].1);
    } else {
      ApplyTableRemoves(s, t[..n], j, c);
      ReplaceStepKeepsOut(prev, t[n], c);
    }
  }

  lemma {:induction false} SliceKeepsOut(s: string, i: nat, j: nat, c: char)
    requires i <= j <= |s| && c !in s
    ensures c !in s[i..j]
  {
    forall k | 0 <= k < j - i ensures s[i..j][k] != c {
      assert s[i..j][k] == s[i + k] && s[i + k] in s;
    }
  }

  /** Stripping only drops characters. */
  lemma {:induction false} StripKeepsOut(s: string, c: char)
    requires c !in s
    ensures c !in Strip(s)
  {
    var i := |s| - |StripLeft(s)|;
    SliceKeepsOut(s, i, i + |Strip(s)|, c);
  }

  /** Cleaned notes hold neither curly double quote. */
  lemma {:induction false} NotesHaveNoCurlyQuotes(text: Option<string>)
    ensures '\U{201C}' !in CleanedText(text, NotesReplace)
    ensures '\U{201D}' !in CleanedText(text, NotesReplace)
  {
    if text.Some? {
      var t := NotesReplace;
      assert t[0].0 == ['\U{201C}'] && t[1].0 == ['\U{201D}'] && t[0].1 == [] && t[1].1 == [];
      ApplyTableRemoves(text.value, t, 0, '\U{201C}');
      ApplyTableRemoves(text.value, t, 1, '\U{201D}');
      StripKeepsOut(ApplyTable(text.value, t), '\U{201C}');
      StripKeepsOut(ApplyTable(text.value, t), '\U{201D}');
    }
  }

  /** A text without `c` has no match of the one-character pattern `[c]`. */
  lemma {:induction false} NoMatchOfChar(x: string, c: char)
    requires c !in x
    ensures NoMatch(x, [c])
  {
    forall i: nat | i <= |x| ensures !MatchAt(x, [c], i) {
      if i + 1 <= |x| {
        assert x[i..i + 1][0] == x[i];
      }
    }
  }

  /** A text already lower-case is its own `lower()`. */
  lemma {:induction false} LowerOfLower(x: string)
    requires IsLowerStr(x)
    ensures Lower(x) == x
  {
  }

  /**
   * Notes without curly quotes lose nothing but case and edge whitespace:
   * the notes table then changes no character.
   */
  lemma {:induction false} NotesWithoutQuotes(text: string)
    requires '\U{201C}' !in text && '\U{201D}' !in text
    ensures CleanedText(Some(text), NotesReplace) == Strip(Lower(text))
  {
    var t := NotesReplace;
    assert t[..1] == [t[0]] && t[..1][..0] == [];
    assert t[0].0 == ['\U{201C}'] && t[1].0 == ['\U{201D}'] && t[0].1 == [] && t[1].1 == [];
    var l := Lower(text);
    LowerOfNonLetter('\U{201C}');
    LowerOfNonLetter('\U{201D}');
    LowerKeepsOut(text, '\U{201C}');
    LowerKeepsOut(text, '\U{201D}');
    NoMatchOfChar(l, '\U{201C}');
    ReplaceAbsent(l, t[0].0, t[0].1);
    assert ApplyTable(text, t[..1]) == l;
    LowerOfLower(l);
    NoMatchOfChar(l, '\U{201D}');
    ReplaceAbsent(l, t[1].0, t[1].1);
    assert ApplyTable(text, t) == l;
  }

  // The servings table in action on "A Serves- B". In dict order "Serves" is
  // removed first, which brings " - " together, and it is then closed up to
  // "-". In the reverse order " - " is not yet there, so it stays.

  lemma {:induction false} LowerServesDash()
    ensures Lower("A Serves- B") == "a serves- b"
    ensures Lower("a serves- b") == "a serves- b"
  {
    var l := Lower("A Serves- B");
    forall i | 0 <= i < |l| ensures l[i] == "a serves- b"[i] {
      assert l[i] == LowerChar("A Serves- B"[i]);
    }
    LowerOfLower("a serves- b");
  }

  lemma {:induction false} ServesCut()
    ensures Replace("a serves- b", "serves", "") == "a - b"
  {
    var s := "a serves- b";
    assert s[..6] != "serves" && s[1..] == " serves- b";
    var s1 := " serves- b";
    assert s1[..6] != "serves" && s1[1..] == "serves- b";
    var s2 := "serves- b";
    assert s2[..6] == "serves" && s2[6..] == "- b";
    assert Replace("- b", "serves", "") == "- b";
  }

  lemma {:induction false} NoDashIn()
    ensures Replace("a serves- b", " - ", "-") == "a serves- b"
  {
    var s := "a serves- b";
    forall i: nat | i <= |s| ensures !MatchAt(s, " - ", i) {
      if i + 3 <= |s| {
        assert s[i..i + 3][0] == s[i] && s[i..i + 3][1] == s[i + 1];
      }
    }
    ReplaceAbsent(s, " - ", "-");
  }

  lemma {:induction false} DashClosed()
    ensures Replace("a - b", " - ", "-") == "a-b"
  {
    var s := "a - b";
    assert s[..3] != " - " && s[1..] == " - b";
    var s1 := " - b";
    assert s1[..3] == " - " && s1[3..] == "b";
  }

  lemma {:induction false} StripServings()
    ensures Strip("a-b") == "a-b" && Strip("a - b") == "a - b"
  {
    LetterNotSpace('a');
    LetterNotSpace('b');
    assert StripLeft("a-b") == "a-b" && StripLeft("a - b") == "a - b";
  }

  lemma {:induction false} ServesFirst()
    ensures ReplaceStep("A Serves- B", ServingsReplace[0]) == "a - b"
  {
    LowerServesDash();
    assert Lower("Serves") == "serves";
    ServesCut();
  }

  lemma {:induction false} DashSecond()
    ensures ReplaceStep("a - b", ServingsReplace[1]) == "a-b"
  {
    LowerOfLower("a - b");
    assert Lower(" - ") == " - ";
    DashClosed();
  }

  lemma {:induction false} DashFirst()
    ensures ReplaceStep("A Serves- B", ServingsReplace[1]) == "a serves- b"
  {
    LowerServesDash();
    assert Lower(" - ") == " - ";
    NoDashIn();
  }

  lemma {:induction false} ServesSecond()
    ensures ReplaceStep("a serves- b", ServingsReplace[0]) == "a - b"
  {
    LowerServesDash();
    assert Lower("Serves") == "serves";
    ServesCut();
  }

  /** The servings text "A Serves- B" is saved as "a-b": the pairs are applied in dict order. */
  lemma {:induction false} ServingsExample()
    ensures CleanedText(Some("A Serves- B"), ServingsReplace) == "a-b"
  {
    var t := ServingsReplace;
    assert t[..1] == [t[0]] && t[..1][..0] == [];
    ServesFirst();
    DashSecond();
    assert ApplyTable("A Serves- B", t) == "a-b";
    StripServings();
  }

  /** With the two pairs the other way round, the same text would be saved as "a - b". */
  lemma {:induction false} ServingsOrderMatters()
    ensures CleanedText(Some("A Serves- B"), [ServingsReplace[1], ServingsReplace[0]]) == "a - b"
  {
    var t := [ServingsReplace[1], ServingsReplace[0]];
    assert t[..1] == [t[0]] && t[..1][..0] == [] && t[0] == ServingsReplace[1] && t[1] == ServingsReplace[0];
    var x := "A Serves- B";
    DashFirst();
    assert ApplyTable(x, t[..1]) == ReplaceStep(x, t[0]) == "a serves- b";
    ServesSecond();
    assert ApplyTable(x, t) == ReplaceStep("a serves- b", t[1]) == "a - b";
    StripServings();
  }

  // ---------------------------------------------------------------- list fields

  /** `" ".join(li.text.split())` for every item, in order. */
  function CollapseAll(items: seq<string>): (ls: seq<string>)
    ensures |ls| == |items| && forall i :: 0 <= i < |items| ==> ls[i] == Collapse(items[i])
  {
    seq(|items|, i requires 0 <= i < |items| => Collapse(items[i]))
  }

  /**
   * `get_ingredients` and `get_nutritional_info`: the collapsed items joined
   * with `'\n'`, or `""` when the list element is absent.
   */
  function JoinedLines(found: Option<seq<string>>): (text: string)
    ensures found == None ==> text == ""
    ensures found == Some([]) ==> text == ""
    ensures found.Some? && found.value != [] ==>
      SplitOn(text, '\n') == CollapseAll(found.value) && multiset(text)['\n'] == |found.value| - 1
  {
    match found
    case None => ""
    case Some(items) =>
      if items != [] then LinesOfCollapsed(items); Join("\n", CollapseAll(items))
      else Join("\n", CollapseAll(items))
  }

  lemma {:induction false} NoNewline(x: string)
    ensures '\n' !in Collapse(x)
  {
    CollapseShape(x);
    var t := Collapse(x);
    SpaceAndNewline();
    forall i | 0 <= i < |t| ensures t[i] != '\n' {
      assert IsSpace(t[i]) ==> t[i] == ' ';
    }
  }

  /**
   * With n >= 1 items, joining the collapsed items with `'\n'` gives n lines,
   * hence n - 1 newlines, and the lines are the collapsed items.
   */
  lemma {:induction false} LinesOfCollapsed(items: seq<string>)
    requires |items| >= 1
    ensures SplitOn(Join("\n", CollapseAll(items)), '\n') == CollapseAll(items)
    ensures multiset(Join("\n", CollapseAll(items)))['\n'] == |items| - 1
  {
    var ls := CollapseAll(items);
    forall x | x in ls ensures '\n' !in x {
      var i :| 0 <= i < |ls| && ls[i] == x;
      NoNewline(items[i]);
    }
    SplitOnJoin(ls, '\n');
    CountJoin(ls, '\n');
  }

  /** Line i is item i with its whitespace runs collapsed to single spaces: the same words. */
  lemma {:induction false} CollapsedLines(items: seq<string>)
    ensures forall i :: 0 <= i < |items| ==>
      IsCollapsed(CollapseAll(items)[i]) && Split(CollapseAll(items)[i]) == Split(items[i])
  {
    forall i | 0 <= i < |items| ensures IsCollapsed(CollapseAll(items)[i]) && Split(CollapseAll(items)[i]) == Split(items[i]) {
      CollapseShape(items[i]);
    }
  }

  /** `''.join([l + '\n\n' for l in ls])`: each line followed by a blank line. */
  function Paragraphs(ls: seq<string>): string {
    if ls == [] then "" else ls[0] + "\n\n" + Paragraphs(ls[1..])
  }

  /** `get_directions`: the collapsed items as paragraphs, or `""` when the element is absent. */
  function GetDirections(found: Option<seq<string>>): (text: string)
    ensures found == None ==> text == ""
    ensures found.Some? ==> |text| == SumLengths(CollapseAll(found.value)) + 2 * |found.value|
    ensures found.Some? && found.value != [] ==>
      text == Join("\n\n", CollapseAll(found.value)) + "\n\n" && text[|text| - 2..] == "\n\n"
  {
    match found
    case None => ""
    case Some(items) =>
      var ls := CollapseAll(items);
      ParagraphsLength(ls);
      if ls != [] then ParagraphsJoin(ls); Paragraphs(ls)
      else Paragraphs(ls)
  }

  function SumLengths(xs: seq<string>): nat {
    if xs == [] then 0 else |xs[0]| + SumLengths(xs[1..])
  }

  /** Each line adds its own length and two newlines. */
  lemma {:induction false} ParagraphsLength(ls: seq<string>)
    ensures |Paragraphs(ls)| == SumLengths(ls) + 2 * |ls|
  {
    if ls != [] {
      ParagraphsLength(ls[1..]);
    }
  }

  /**
   * Paragraphs are the lines joined by blank lines, with one more blank line
   * at the end: the text ends in `"\n\n"` whenever there is a line.
   */
  lemma {:induction false} ParagraphsJoin(ls: seq<string>)
    requires ls != []
    ensures Paragraphs(ls) == Join("\n\n", ls) + "\n\n"
    ensures Paragraphs(ls)[|Paragraphs(ls)| - 2..] == "\n\n"
  {
    if |ls| == 1 {
      assert Paragraphs(ls) == ls[0] + "\n\n" + "";
    } else {
      ParagraphsJoin(ls[1..]);
      var j := Join("\n\n", ls[1..]);
      assert Join("\n\n", ls) == ls[0] + "\n\n" + j;
      assert ls[0] + "\n\n" + (j + "\n\n") == ls[0] + "\n\n" + j + "\n\n";
    }
  }

  /** `get_category`: the anchors' texts title-cased, or `""` when the element is absent. */
  function GetCategory(found: Option<seq<string>>): (c: Recipe.JsonValue)
    ensures found == None ==> c == Recipe.JStr("")
    ensures found.Some? ==> c.JList? && |c.items| == |found.value|
    ensures Recipe.Truthy(c) <==> found.Some? && found.value != []
  {
    match found
    case None => Recipe.JStr("")
    case Some(anchors) => Recipe.JList(seq(|anchors|, i requires 0 <= i < |anchors| => Title(anchors[i])))
  }

  /**
   * One category per anchor, in document order: each is title-cased and has
   * the anchor's text up to case.
   */
  lemma {:induction false} CategoryShape(anchors: seq<string>)
    ensures var cs := GetCategory(Some(anchors)).items;
      forall i :: 0 <= i < |cs| ==> Title(cs[i]) == cs[i] && Lower(cs[i]) == Lower(anchors[i])
  {
    forall i | 0 <= i < |anchors| ensures Title(Title(anchors[i])) == Title(anchors[i]) && Lower(Title(anchors[i])) == Lower(anchors[i]) {
      TitleIdempotent(anchors[i]);
      TitleKeepsText(anchors[i]);
    }
  }

  const UrlScheme: string := "http:"

  /** `get_image_url`: the image's `src` behind `"http:"`, or `None` without the photo element. */
  function GetImageUrl(src: Option<string>): (url: Option<string>)
    ensures url.Some? <==> src.Some?
    ensures url.Some? ==> |url.value| >= |UrlScheme| && url.value[..|UrlScheme|] == UrlScheme && url.value[|UrlScheme|..] == src.value
  {
    match src
    case None => None
    case Some(s) => Some(UrlScheme + s)
  }

  /** `get_photo_data`: the encoded image when there is a URL, else `""`. The fetch and its encoding are the input `encoded`. */
  function GetPhotoData(url: Option<string>, encoded: string): (data: string)
    ensures data != [] ==> url.Some? && url.value != [] && data == encoded
    ensures url.Some? && url.value != [] ==> data == encoded
  {
    if url.Some? && url.value != [] then encoded else ""
  }

  // ---------------------------------------------------------------- one page

  /** An HTTP answer for a recipe URL, with the lookups the scraper makes in it. */
  datatype Page = Page(
    status: int,
    name: Option<string>,
    servings: Option<string>,
    cookTime: Option<string>,
    categories: Option<seq<string>>,
    photoSrc: Option<string>,
    photoEncoded: string,
    notes: Option<string>,
    ingredients: Option<seq<string>>,
    directions: Option<seq<string>>,
    nutrition: Option<seq<string>>)

  /** A row of `get_recipes_rows`. */
  datatype Row = Row(id: int, source: string, url: string)

  /** The recipe `run` builds from a page that has a name element. */
  function BuildRecipe(row: Row, page: Page): (r: Recipe.Recipe)
    requires page.name.Some?
    ensures r.name == Strip(page.name.value) && r.source == row.source && r.sourceUrl == row.url
    ensures r.imageUrl == GetImageUrl(page.photoSrc) && r.categories == GetCategory(page.categories)
    ensures IsLowerStr(r.servings) && NoEdgeSpace(r.servings) && IsLowerStr(r.cookTime) && NoEdgeSpace(r.cookTime)
    ensures IsLowerStr(r.notes) && NoEdgeSpace(r.notes) && '\U{201C}' !in r.notes && '\U{201D}' !in r.notes
    ensures r.rating == 0 && r.uid == [] && r.hash == []
    ensures r.ingredients == JoinedLines(page.ingredients) && r.directions == GetDirections(page.directions)
    ensures r.nutritionalInfo == JoinedLines(page.nutrition) && r.photoData == GetPhotoData(r.imageUrl, page.photoEncoded)
  {
    TablesLower();
    CleanedTextShape(page.servings, ServingsReplace);
    CleanedTextShape(page.cookTime, CooktimeReplace);
    CleanedTextShape(page.notes, NotesReplace);
    NotesHaveNoCurlyQuotes(page.notes);
    var url := GetImageUrl(page.photoSrc);
    Recipe.NewRecipe().(
      name := Strip(page.name.value),
      source := row.source,
      sourceUrl := row.url,
      servings := CleanedText(page.servings, ServingsReplace),
      cookTime := CleanedText(page.cookTime, CooktimeReplace),
      categories := GetCategory(page.categories),
      imageUrl := url,
      photoData := GetPhotoData(url, page.photoEncoded),
      notes := CleanedText(page.notes, NotesReplace),
      ingredients := JoinedLines(page.ingredients),
      directions := GetDirections(page.directions),
      nutritionalInfo := JoinedLines(page.nutrition))
  }

  // What a recipe with those fields saves. Each lemma takes the recipe and
  // the lookup it was built from, so the contract of `BuildRecipe`
  // instantiates it for `BuildRecipe(row, page)`.

  /** `source_url` is saved with the recipe URL, which is never empty. */
  lemma {:induction false} SavedSourceUrl(r: Recipe.Recipe, url: string)
    requires r.sourceUrl == url && url != []
    ensures Recipe.Lookup(Recipe.ToDict(r), Recipe.SourceUrl) == Some(Recipe.JStr(url))
  {
    Recipe.ToDictLookup(r, Recipe.SourceUrl);
  }

  /** `image_url` is saved exactly when the photo element was found. */
  lemma {:induction false} SavedImageUrl(r: Recipe.Recipe, src: Option<string>)
    requires r.imageUrl == GetImageUrl(src)
    ensures Recipe.ImageUrl in Recipe.Keys(Recipe.ToDict(r)) <==> src.Some?
    ensures src.Some? ==> Recipe.Lookup(Recipe.ToDict(r), Recipe.ImageUrl) == Some(Recipe.JStr(UrlScheme + src.value))
  {
    Recipe.ToDictLookup(r, Recipe.ImageUrl);
  }

  /** `categories` is saved exactly when there was a category anchor. */
  lemma {:induction false} SavedCategories(r: Recipe.Recipe, found: Option<seq<string>>)
    requires r.categories == GetCategory(found)
    ensures Recipe.Categories in Recipe.Keys(Recipe.ToDict(r)) <==> found.Some? && found.value != []
  {
    Recipe.ToDictLookup(r, Recipe.Categories);
  }

  /** The scraper never sets `rating`, `uid` or `hash`, so none of them is saved. */
  lemma {:induction false} SavedUnset(r: Recipe.Recipe)
    requires r.rating == 0 && r.uid == [] && r.hash == []
    ensures var d := Recipe.ToDict(r);
      Recipe.Rating !in Recipe.Keys(d) && Recipe.Uid !in Recipe.Keys(d) && Recipe.Hash !in Recipe.Keys(d)
  {
    NotSaved(r, Recipe.Rating);
    NotSaved(r, Recipe.Uid);
    NotSaved(r, Recipe.Hash);
  }

  /** A field whose value is falsy is not saved. */
  lemma {:induction false} NotSaved(r: Recipe.Recipe, k: Recipe.Key)
    requires !Recipe.Truthy(Recipe.FieldValue(r, k))
    ensures k !in Recipe.Keys(Recipe.ToDict(r))
  {
    Recipe.ToDictLookup(r, k);
  }

  // ---------------------------------------------------------------- the run loop

  /** What happens to a row. */
  datatype Outcome = Retry | Scraped | Failed

  /** The branch of `run` taken for one answer: 403 waits and retries, 200 with a name is scraped, anything else failed. */
  function Decide(status: int, nameFound: bool): (o: Outcome)
    ensures o == Retry <==> status == 403
    ensures o == Scraped <==> status == 200 && nameFound
  {
    if status == 403 then Retry
    else if status == 200 && nameFound then Scraped
    else Failed
  }

  /** The value of the `scraped` column for a finished row. */
  function StatusCode(o: Outcome): int {
    match o
    case Retry => 0
    case Scraped => 1
    case Failed => 2
  }

  /** The position of the first answer that is not a 403, or `|pages|` when all are. */
  function FirstAnswer(pages: seq<Page>): (i: nat)
    ensures i <= |pages| && forall k :: 0 <= k < i ==> pages[k].status == 403
    ensures i < |pages| ==> pages[i].status != 403
  {
    if pages == [] || pages[0].status != 403 then 0 else 1 + FirstAnswer(pages[1..])
  }

  /** The outcome of a row: that of its first non-403 answer, or `Retry` while there is none. */
  function RowVerdict(pages: seq<Page>): (o: Outcome)
    ensures o == Retry <==> forall k :: 0 <= k < |pages| ==> pages[k].status == 403
    ensures o != Retry ==> FirstAnswer(pages) < |pages|
    ensures o == Scraped <==> o != Retry && pages[FirstAnswer(pages)].status == 200 && pages[FirstAnswer(pages)].name.Some?
  {
    var i := FirstAnswer(pages);
    if i == |pages| then Retry else Decide(pages[i].status, pages[i].name.Some?)
  }

  /** The first non-403 answer is the one a scan over the 403s stops at. */
  lemma {:induction false} FirstAnswerAt(pages: seq<Page>, i: nat)
    requires i < |pages| && pages[i].status != 403 && forall k :: 0 <= k < i ==> pages[k].status == 403
    ensures FirstAnswer(pages) == i
  {
  }

  /** An answer after a first non-403 one has no effect on the row. */
  lemma {:induction false} RowVerdictPrefix(pages: seq<Page>, more: seq<Page>)
    requires RowVerdict(pages) != Retry
    ensures RowVerdict(pages + more) == RowVerdict(pages) && FirstAnswer(pages + more) == FirstAnswer(pages)
  {
    if pages[0].status == 403 {
      assert (pages + more)[1..] == pages[1..] + more;
      RowVerdictPrefix(pages[1..], more);
    }
  }

  /** The `scraped` column of the recipe table, by row id: 0 pending, 1 scraped, 2 failed. */
  class RecipeTable {
    var scraped: map<int, int>

    constructor(scraped: map<int, int>)
      ensures this.scraped == scraped
    {
      this.scraped := scraped;
    }

    /** `set_recipe_scraped`: `UPDATE ... SET scraped = 1 WHERE id = ?`. */
    method SetRecipeScraped(id: int)
      modifies this
      ensures scraped == if id in old(scraped) then old(scraped)[id := 1] else old(scraped)
    {
      if id in scraped {
        scraped := scraped[id := 1];
      }
    }

    /** `set_recipe_failed`: `UPDATE ... SET scraped = 2 WHERE id = ?`. */
    method SetRecipeFailed(id: int)
      modifies this
      ensures scraped == if id in old(scraped) then old(scraped)[id := 2] else old(scraped)
    {
      if id in scraped {
        scraped := scraped[id := 2];
      }
    }
  }

  /** The fields `run` fills in, in its order, with the `get_*` helpers. */
  method ScrapePage(row: Row, page: Page) returns (rcp: Recipe.Recipe)
    requires page.name.Some?
    ensures rcp == BuildRecipe(row, page)
  {
    rcp := Recipe.NewRecipe();
    rcp := rcp.(name := Strip(page.name.value));
    rcp := rcp.(source := row.source);
    rcp := rcp.(sourceUrl := row.url);
    var servings := GetServings(page.servings);
    rcp := rcp.(servings := servings);
    var cookTime := GetCooktime(page.cookTime);
    rcp := rcp.(cookTime := cookTime);
    rcp := rcp.(categories := GetCategory(page.categories));
    rcp := rcp.(imageUrl := GetImageUrl(page.photoSrc));
    rcp := rcp.(photoData := GetPhotoData(rcp.imageUrl, page.photoEncoded));
    var notes := GetNotes(page.notes);
    rcp := rcp.(notes := notes);
    rcp := rcp.(ingredients := JoinedLines(page.ingredients));
    rcp := rcp.(directions := GetDirections(page.directions));
    rcp := rcp.(nutritionalInfo := JoinedLines(page.nutrition));
  }

  /**
   * The archives after saving `rcp`: the entry named after the recipe is added
   * to the archive of the row's source, unless it is already there.
   */
  function ArchivesAfterSave(archives: map<string, seq<Files.Entry>>, root: string, source: string, rcp: Recipe.Recipe): map<string, seq<Files.Entry>> {
    var zip := Files.RecipesFilePath(root, source);
    var entries := if zip in archives then archives[zip] else [];
    archives[zip := Files.AddEntry(entries, Files.FormatFilename(rcp.name) + Files.RecipeExtension, Recipe.ToDict(rcp))]
  }

  /** The 200-with-a-name branch of `run` after the recipe is built: serialise, add to the archive, mark the row 1. */
  method SaveRecipe(db: RecipeTable, pf: Files.PaprikaFiles, row: Row, rcp: Recipe.Recipe)
    requires pf.Valid() && pf.recipesFile == row.source
    modifies db, pf
    ensures pf.Valid() && pf.recipesFile == row.source
    ensures pf.archives == ArchivesAfterSave(old(pf.archives), pf.root, row.source, rcp)
    ensures db.scraped == if row.id in old(db.scraped) then old(db.scraped)[row.id := 1] else old(db.scraped)
  {
    var data := Recipe.GetDict(rcp);
    var _ := pf.AddToPaprikaRecipes(rcp.name, data);
    db.SetRecipeScraped(row.id);
  }

  /** The branch of `run` for a 200 answer with a name: build the recipe from the page, then save it. */
  method ScrapeAndSave(db: RecipeTable, pf: Files.PaprikaFiles, row: Row, page: Page)
    requires pf.Valid() && pf.recipesFile == row.source && page.name.Some?
    modifies db, pf
    ensures pf.Valid() && pf.recipesFile == row.source
    ensures pf.archives == ArchivesAfterSave(old(pf.archives), pf.root, row.source, BuildRecipe(row, page))
    ensures db.scraped == if row.id in old(db.scraped) then old(db.scraped)[row.id := 1] else old(db.scraped)
  {
    var rcp := ScrapePage(row, page);
    SaveRecipe(db, pf, row, rcp);
  }

  /**
   * One row of `run`: `recipes_file` becomes the row's source, then the URL is
   * fetched until an answer is not a 403. `pages` are the answers in order;
   * when they are all 403 the row is still being retried and nothing else has
   * changed. A 200 with a name adds the recipe to the archive (unless an entry
   * of that name is there) and marks the row 1; any other answer marks it 2.
   */
  method ScrapeRow(db: RecipeTable, pf: Files.PaprikaFiles, row: Row, pages: seq<Page>) returns (outcome: Outcome)
    requires pf.Valid()
    modifies db, pf
    ensures pf.Valid() && pf.recipesFile == row.source
    ensures outcome == RowVerdict(pages)
    ensures outcome == Retry ==> db.scraped == old(db.scraped) && pf.archives == old(pf.archives)
    ensures outcome == Failed ==> (
      pf.archives == old(pf.archives) &&
      db.scraped == if row.id in old(db.scraped) then old(db.scraped)[row.id := 2] else old(db.scraped))
    ensures outcome == Scraped ==> (
      pf.archives == ArchivesAfterSave(old(pf.archives), pf.root, row.source, BuildRecipe(row, pages[FirstAnswer(pages)])) &&
      db.scraped == if row.id in old(db.scraped) then old(db.scraped)[row.id := 1] else old(db.scraped))
  {
    pf.recipesFile := row.source;
    outcome := Retry;
    var i := 0;
    while i < |pages|
      invariant 0 <= i <= |pages| && forall k :: 0 <= k < i ==> pages[k].status == 403
      invariant pf.Valid() && pf.recipesFile == row.source
      invariant db.scraped == old(db.scraped) && pf.archives == old(pf.archives)
      decreases |pages| - i
    {
      var page := pages[i];
      if page.status == 403 {
        i := i + 1;
      } else if page.status == 200 && page.name.Some? {
        FirstAnswerAt(pages, i);
        ScrapeAndSave(db, pf, row, page);
        outcome := Scraped;
        return;
      } else {
        FirstAnswerAt(pages, i);
        db.SetRecipeFailed(row.id);
        outcome := Failed;
        return;
      }
    }
  }

  /** The archives after one row with answers `pages`: its recipe is saved if it was scraped. */
  function SaveRow(archives: map<string, seq<Files.Entry>>, root: string, row: Row, pages: seq<Page>): map<string, seq<Files.Entry>> {
    if RowVerdict(pages) == Scraped then
      ArchivesAfterSave(archives, root, row.source, BuildRecipe(row, pages[FirstAnswer(pages)]))
    else archives
  }

  /**
   * The archives after the rows `rows` have been handled with the answers
   * `answers`: each row whose verdict is `Scraped` saves its recipe, in row order.
   */
  function AfterRows(archives: map<string, seq<Files.Entry>>, root: string, rows: seq<Row>, answers: seq<seq<Page>>): map<string, seq<Files.Entry>>
    requires |answers| == |rows|
    decreases |rows|
  {
    if rows == [] then archives
    else
      var n := |rows| - 1;
      var prev := AfterRows(archives, root, rows[..n], answers[..n]);
      SaveRow(prev, root, rows[n], answers[n])
  }

  /** Handling one more row extends `AfterRows` by that row's save, if it was scraped. */
  lemma {:induction false} AfterRowsStep(archives: map<string, seq<Files.Entry>>, root: string, rows: seq<Row>, answers: seq<seq<Page>>, n: nat)
    requires |answers| == |rows| && n < |rows|
    ensures var prev := AfterRows(archives, root, rows[..n], answers[..n]);
      var pages := answers[n];
      AfterRows(archives, root, rows[..n + 1], answers[..n + 1]) ==
        if RowVerdict(pages) == Scraped then
          ArchivesAfterSave(prev, root, rows[n].source, BuildRecipe(rows[n], pages[FirstAnswer(pages)]))
        else prev
  {
    assert rows[..n + 1][..n] == rows[..n];
    assert answers[..n + 1][..n] == answers[..n];
  }

  /** The archive at `zip` exists and holds an entry called `name`. */
  predicate Holds(archives: map<string, seq<Files.Entry>>, zip: string, name: string) {
    zip in archives && name in Files.Names(archives[zip])
  }

  /** Saving a recipe writes its entry to the archive of its source and drops no entry of any archive. */
  lemma {:induction false} SaveKeepsAndAdds(archives: map<string, seq<Files.Entry>>, root: string, source: string, rcp: Recipe.Recipe)
    ensures var after := ArchivesAfterSave(archives, root, source, rcp);
      && Holds(after, Files.RecipesFilePath(root, source), Files.FormatFilename(rcp.name) + Files.RecipeExtension)
      && forall zip, name :: Holds(archives, zip, name) ==> Holds(after, zip, name)
  {
    var after := ArchivesAfterSave(archives, root, source, rcp);
    forall zip, name | Holds(archives, zip, name) ensures Holds(after, zip, name) {
      var i :| 0 <= i < |archives[zip]| && archives[zip][i].name == name;
      assert archives[zip] <= after[zip];
      assert Files.Names(after[zip])[i] == name;
    }
  }

  /** The archive entry name of a scraped row: its stripped, formatted recipe name plus `.paprikarecipe`. */
  function EntryName(pages: seq<Page>): string
    requires RowVerdict(pages) == Scraped
  {
    Files.FormatFilename(Strip(pages[FirstAnswer(pages)].name.value)) + Files.RecipeExtension
  }

  /** One row drops no entry of any archive. */
  lemma {:induction false} SaveRowKeeps(archives: map<string, seq<Files.Entry>>, root: string, row: Row, pages: seq<Page>, zip: string, name: string)
    requires Holds(archives, zip, name)
    ensures Holds(SaveRow(archives, root, row, pages), zip, name)
  {
    if RowVerdict(pages) == Scraped {
      SaveKeepsAndAdds(archives, root, row.source, BuildRecipe(row, pages[FirstAnswer(pages)]));
    }
  }

  /** A scraped row leaves its entry in the archive of its source. */
  lemma {:induction false} SaveRowAdds(archives: map<string, seq<Files.Entry>>, root: string, row: Row, pages: seq<Page>)
    requires RowVerdict(pages) == Scraped
    ensures Holds(SaveRow(archives, root, row, pages), Files.RecipesFilePath(root, row.source), EntryName(pages))
  {
    SaveKeepsAndAdds(archives, root, row.source, BuildRecipe(row, pages[FirstAnswer(pages)]));
  }

  /** Handling rows drops no entry that was in the archives before. */
  lemma {:induction false} AfterRowsKeeps(archives: map<string, seq<Files.Entry>>, root: string, rows: seq<Row>, answers: seq<seq<Page>>)
    requires |answers| == |rows|
    ensures forall zip, name :: Holds(archives, zip, name) ==> Holds(AfterRows(archives, root, rows, answers), zip, name)
    decreases |rows|
  {
    if rows != [] {
      var n := |rows| - 1;
      AfterRowsKeeps(archives, root, rows[..n], answers[..n]);
      var prev := AfterRows(archives, root, rows[..n], answers[..n]);
      forall zip, name | Holds(archives, zip, name) ensures Holds(AfterRows(archives, root, rows, answers), zip, name) {
        assert AfterRows(archives, root, rows, answers) == SaveRow(prev, root, rows[n], answers[n]);
        SaveRowKeeps(prev, root, rows[n], answers[n], zip, name);
      }
    }
  }

  /** After the rows are handled, the archive of scraped row `k`'s source holds the entry named after its recipe. */
  lemma {:induction false} AfterRowsSavedAt(archives: map<string, seq<Files.Entry>>, root: string, rows: seq<Row>, answers: seq<seq<Page>>, k: nat)
    requires |answers| == |rows| && k < |rows| && RowVerdict(answers[k]) == Scraped
    ensures Holds(AfterRows(archives, root, rows, answers), Files.RecipesFilePath(root, rows[k].source), EntryName(answers[k]))
    decreases |rows|
  {
    var n := |rows| - 1;
    var prev := AfterRows(archives, root, rows[..n], answers[..n]);
    assert AfterRows(archives, root, rows, answers) == SaveRow(prev, root, rows[n], answers[n]);
    if k < n {
      assert rows[..n][k] == rows[k] && answers[..n][k] == answers[k];
      AfterRowsSavedAt(archives, root, rows[..n], answers[..n], k);
      SaveRowKeeps(prev, root, rows[n], answers[n], Files.RecipesFilePath(root, rows[k].source), EntryName(answers[k]));
    } else {
      SaveRowAdds(prev, root, rows[n], answers[n]);
    }
  }

  /**
   * After the rows are handled, the archive of each scraped row's source
   * holds the entry named after its recipe.
   */
  lemma {:induction false} AfterRowsSaved(archives: map<string, seq<Files.Entry>>, root: string, rows: seq<Row>, answers: seq<seq<Page>>)
    requires |answers| == |rows|
    ensures forall k :: 0 <= k < |rows| && RowVerdict(answers[k]) == Scraped ==>
      Holds(AfterRows(archives, root, rows, answers), Files.RecipesFilePath(root, rows[k].source), EntryName(answers[k]))
  {
    forall k | 0 <= k < |rows| && RowVerdict(answers[k]) == Scraped
      ensures Holds(AfterRows(archives, root, rows, answers), Files.RecipesFilePath(root, rows[k].source), EntryName(answers[k]))
    {
      AfterRowsSavedAt(archives, root, rows, answers, k);
    }
  }

  /**
   * Marking row `n` with its code keeps the rows before it as they were
   * marked, since ids are distinct, and leaves every row not yet reached as
   * it was at the start.
   */
  lemma {:induction false} MarkStep(start: map<int, int>, before: map<int, int>, rows: seq<Row>, answers: seq<seq<Page>>, n: nat)
    requires |answers| == |rows| && n < |rows| && RowVerdict(answers[n]) != Retry
    requires forall a, b :: 0 <= a < b < |rows| ==> rows[a].id != rows[b].id
    requires rows[n].id in before && before.Keys == start.Keys
    requires forall k :: 0 <= k < n ==> rows[k].id in before && before[rows[k].id] == StatusCode(RowVerdict(answers[k]))
    requires forall id :: id in before && (forall k :: 0 <= k < n ==> rows[k].id != id) ==> before[id] == start[id]
    ensures var after := before[rows[n].id := StatusCode(RowVerdict(answers[n]))];
      && after.Keys == start.Keys
      && (forall k :: 0 <= k < n + 1 ==> after[rows[k].id] == StatusCode(RowVerdict(answers[k])))
      && (forall id :: id in after && (forall k :: 0 <= k < n + 1 ==> rows[k].id != id) ==> after[id] == start[id])
  {
    var after := before[rows[n].id := StatusCode(RowVerdict(answers[n]))];
    forall id | id in after && (forall k :: 0 <= k < n + 1 ==> rows[k].id != id)
      ensures after[id] == start[id]
    {
      assert forall k :: 0 <= k < n ==> rows[k].id != id;
    }
  }

  /**
   * The body of the row loop of `run` for row `n`: the archives go from the
   * state after the rows before it to the state after it, unless it is still
   * being retried; the row is marked with the code of its verdict.
   */
  method RunRow(db: RecipeTable, pf: Files.PaprikaFiles, rows: seq<Row>, answers: seq<seq<Page>>, n: nat,
                ghost base: map<string, seq<Files.Entry>>) returns (outcome: Outcome)
    requires pf.Valid() && |answers| == |rows| && n < |rows|
    requires pf.archives == AfterRows(base, pf.root, rows[..n], answers[..n])
    modifies db, pf
    ensures pf.Valid() && outcome == RowVerdict(answers[n])
    ensures outcome == Retry ==> pf.archives == old(pf.archives)
    ensures outcome != Retry ==> pf.archives == AfterRows(base, pf.root, rows[..n + 1], answers[..n + 1])
    ensures db.scraped == if outcome == Retry || rows[n].id !in old(db.scraped) then old(db.scraped)
      else old(db.scraped)[rows[n].id := StatusCode(outcome)]
  {
    outcome := ScrapeRow(db, pf, rows[n], answers[n]);
    AfterRowsStep(base, pf.root, rows, answers, n);
  }

  /**
   * `run` over the rows of `get_recipes_rows` (rows still 0, each id once), with
   * the answers each row receives. It goes through the rows in order;
   * `finished` counts the rows it has got past. A row it is still retrying
   * stops the run there, as the `while True` loop of the source never leaves
   * it. Every finished row is marked with the code of its verdict, the
   * archives hold the recipes of the scraped rows, and no other row changes.
   */
  method Run(db: RecipeTable, pf: Files.PaprikaFiles, rows: seq<Row>, answers: seq<seq<Page>>) returns (finished: nat)
    requires pf.Valid() && |answers| == |rows|
    requires forall k :: 0 <= k < |rows| ==> rows[k].id in db.scraped && db.scraped[rows[k].id] == 0
    requires forall a, b :: 0 <= a < b < |rows| ==> rows[a].id != rows[b].id
    modifies db, pf
    ensures pf.Valid() && finished <= |rows|
    ensures forall k :: 0 <= k < finished ==> RowVerdict(answers[k]) != Retry
    ensures finished < |rows| ==> RowVerdict(answers[finished]) == Retry
    ensures db.scraped.Keys == old(db.scraped).Keys
    ensures forall k :: 0 <= k < finished ==> db.scraped[rows[k].id] == StatusCode(RowVerdict(answers[k]))
    ensures forall id :: id in db.scraped && (forall k :: 0 <= k < finished ==> rows[k].id != id) ==>
      db.scraped[id] == old(db.scraped)[id]
    ensures pf.archives == AfterRows(old(pf.archives), pf.root, rows[..finished], answers[..finished])
  {
    finished := 0;
    while finished < |rows|
      invariant finished <= |rows| && pf.Valid()
      invariant forall k :: 0 <= k < finished ==> RowVerdict(answers[k]) != Retry
      invariant db.scraped.Keys == old(db.scraped).Keys
      invariant forall k :: 0 <= k < finished ==> db.scraped[rows[k].id] == StatusCode(RowVerdict(answers[k]))
      invariant forall id :: id in db.scraped && (forall k :: 0 <= k < finished ==> rows[k].id != id) ==>
        db.scraped[id] == old(db.scraped)[id]
      invariant pf.archives == AfterRows(old(pf.archives), pf.root, rows[..finished], answers[..finished])
      decreases |rows| - finished
    {
      ghost var before := db.scraped;
      var outcome := RunRow(db, pf, rows, answers, finished, old(pf.archives));
      if outcome == Retry {
        return;
      }
      MarkStep(old(db.scraped), before, rows, answers, finished);
      finished := finished + 1;
    }
  }
}
