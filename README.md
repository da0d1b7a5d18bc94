# PyPrika scraper core in Dafny

PyPrika scrapes recipe pages whose URLs sit in an SQLite table. It turns each
page into a `pyprika_recipe`, serialises that record with `get_dict`, and adds
it as a `.paprikarecipe` entry to the `.paprikarecipes` archive of the page's
source site. The Paprika app imports that archive format. This project models:

- **`wrappers.dfy`**: the `Option` type. It stands for `None` and for a page
  element that may be missing.
- **`pystr.dfy`** (`PyStr`): the Python `str` methods the scraper uses. These
  are `lower`, `strip`, `split()`, `" ".join`, `'\n'.join`, `''.join`,
  `replace` and `title`. `split(sep)` is modelled only to state what the lines
  of a `'\n'.join` are. Whitespace is exactly the set `str.isspace` accepts.
  Letter case covers ASCII letters.
- **`recipe.dfy`** (`Recipe`): the 24 attributes of `pyprika_recipe`, and
  `get_dict`. The dict is an ordered list of key/value pairs, with Python's
  `update` semantics: a new key is appended, and an existing key keeps its
  place. `GetDict` performs the guarded updates of the source one by one. It
  is proved equal to `ToDict`, the truthy fields in key order.
- **`files.dfy`** (`Files`): `format_filename`, `path.basename`, the path
  getters of `pyprika_files`, and `add_to_pyprikarecipes`. The `PaprikaFiles`
  class holds `recipes_file` and a map from archive path to entries. An entry
  is added only when its name is not already in the archive.
- **`scraper.dfy`** (`Scraper`): the `get_*` helpers of `scrape`, the recipe
  that `run` builds from a page, and `run` itself.
  - Each BeautifulSoup lookup is an input: the element's text, or the texts of
    its `<li>`/`<a>` children, with `None` when the element is absent.
  - The HTTP answers a row receives are an input sequence of `Page`s.
  - The `scraped` column of the database is the `RecipeTable` class.

## Model

| member | source | states |
|---|---|---|
| `PyStr.SpaceIsWhitespace` | scraper.py:75 | a character counts as whitespace exactly when it is one of the code points `str.isspace` accepts |
| `PyStr.Lower` | scraper.py:74 | `lower()`: same length; each upper-case letter becomes its lower-case letter (code point + 32); every other character, lower-case letters included, is unchanged |
| `PyStr.Strip` | scraper.py:75 | `strip()`: the result is a contiguous slice of the input and has no whitespace at either end |
| `PyStr.StripCutsSpaceOnly` | scraper.py:75 | everything `strip()` cuts off, before or after the slice it keeps, is whitespace |
| `PyStr.Split` | scraper.py:141 | `split()` yields only non-empty words without whitespace |
| `PyStr.SplitConcat` | scraper.py:141 | the words of `split()`, concatenated, are the non-whitespace characters of the text in order, so no character other than whitespace is lost or added |
| `PyStr.SplitCount` | scraper.py:141 | `split()` yields exactly as many words as the text has word starts (a non-whitespace character at the start or after whitespace) |
| `PyStr.SplitSkipsSpace` | scraper.py:141 | a whitespace character in front of the text does not change `split()` |
| `PyStr.SplitWordThen` | scraper.py:141 | a word followed by whitespace or by nothing is the first word of `split()`, and the split goes on with the rest; with `split("") == []` and `SplitSkipsSpace` these are the equations that define `split()`, so its words are the maximal non-whitespace runs |
| `PyStr.SplitJoin` | scraper.py:141 | splitting `" ".join(ws)` gives back the words `ws` |
| `PyStr.CollapseShape` | scraper.py:141 | `" ".join(t.split())` has single spaces between words, no whitespace at the ends, and the same words as `t` |
| `PyStr.CollapseIdempotent` | scraper.py:141 | collapsing whitespace a second time changes nothing |
| `PyStr.SplitOnJoin` | scraper.py:141-142 | splitting `'\n'.join(xs)` on `'\n'` gives back `xs` when no item holds a newline |
| `PyStr.CountJoin` | scraper.py:141-142 | `'\n'.join(xs)` holds exactly `len(xs) - 1` newlines when no item holds one |
| `PyStr.TitleFromAt` | scraper.py:98 | character `i` of the title-cased text is upper-cased when it follows no letter, lower-cased after a letter, and kept when it is not a letter |
| `PyStr.Title` | scraper.py:98 | `title()`: same length; a letter at the start or after a non-letter is upper-case, a letter after a letter is lower-case, and every non-letter is unchanged |
| `PyStr.TitleIdempotent` | scraper.py:98 | `title()` applied twice equals `title()` applied once |
| `PyStr.TitleKeepsText` | scraper.py:98 | `title()` keeps the length and the text up to letter case |
| `PyStr.Replace` | scraper.py:74 | every character of `replace`'s result comes from the text or from the replacement |
| `PyStr.ReplaceAbsent` | scraper.py:74 | `replace` with a non-empty key that does not occur leaves the text unchanged |
| `PyStr.ReplaceKeepsPrefix` | scraper.py:74 | text before the first occurrence of a non-empty key is copied unchanged, and `replace` goes on from there |
| `PyStr.ReplaceAtFirstMatch` | scraper.py:74 | when a non-empty key first occurs at `i`, `replace` keeps the text before `i`, puts the replacement in place of the key and goes on with the text after it; with `ReplaceAbsent` this fixes `replace` for every non-empty key |
| `PyStr.ReplaceOneChar` | scraper.py:130 | `replace` with a one-character key replaces each occurrence of that character and keeps every other character, in order |
| `PyStr.ReplaceRemovesChar` | scraper.py:130 | replacing a one-character key by a text without it leaves no occurrence of that character |
| `Recipe.Update` | pyprika_classes.py:44-92 | `dict.update` of one key: the key then holds the new value, every other key keeps its value, the dict grows by one exactly when the key is new, and existing keys keep their places |
| `Recipe.UpdateAppends` | pyprika_classes.py:44-92 | `dict.update` with a key not yet present appends the pair at the end |
| `Recipe.UpdateSame` | pyprika_classes.py:84 | `dict.update` with a key that already holds that value leaves the dict as it is |
| `Recipe.Lookup` | pyprika_classes.py:42-92 | a lookup finds a value exactly when the key is among the dict's keys |
| `Recipe.KeyNameInjective` | pyprika_classes.py:43-92 | distinct attributes are written under distinct JSON keys |
| `Recipe.PutIfTruthy` | pyprika_classes.py:43-44 | one `if self.f: data.update(...)` step extends the dict by the next field exactly when it is truthy |
| `Recipe.PutSourceAgain` | pyprika_classes.py:83-84 | the second `source` update leaves the dict unchanged |
| `Recipe.SourceAgain` | pyprika_classes.py:67-84 | when the second `source` update runs, `source` already holds the same value, so the update is a no-op |
| `Recipe.DictStep` | pyprika_classes.py:43-92 | each guarded update adds its key only if it is truthy, and the key is new at that point |
| `Recipe.GetDict` | pyprika_classes.py:38-94 | the dict `get_dict` builds is the truthy fields, in the order of the updates |
| `Recipe.ToDictLookup` | pyprika_classes.py:43-92 | a key is in the dict exactly when its attribute is truthy (non-empty string or list, non-zero rating, image URL not `None` and not empty), and then it holds that attribute's value |
| `Recipe.ToDict` | pyprika_classes.py:42-94 | every pair of the serialised dict is a truthy attribute with its own value, and the keys follow the order of the updates |
| `Recipe.ToDictInOrder` | pyprika_classes.py:42-94 | no two keys of the serialised dict share a JSON name, so the JSON object has no duplicate member |
| `Recipe.NewRecipe` | pyprika_classes.py:11-36 | every attribute of a freshly constructed recipe is falsy: empty strings and lists, rating 0, no image URL |
| `Recipe.NewRecipeEmpty` | pyprika_classes.py:11-36 | a freshly constructed recipe serialises to the empty object |
| `Files.FormatFilename` | pyprika_classes.py:121-130 | every character of the result is in `"-_.() "`, an ASCII letter or a digit, and the result is no longer than the input |
| `Files.FormatFilenameSubsequence` | pyprika_classes.py:128 | the result is a subsequence of the input, so order is kept |
| `Files.FormatFilenameCounts` | pyprika_classes.py:127-128 | each valid character is kept as many times as it occurs, and every other character is dropped |
| `Files.FormatFilenameFixed` | pyprika_classes.py:127-128 | a name comes back unchanged if and only if all of its characters are valid |
| `Files.FormatFilenameIdempotent` | pyprika_classes.py:121-130 | formatting a formatted name changes nothing |
| `Files.FormatFilenameNoSlash` | pyprika_classes.py:127-128 | a formatted name holds no `'/'` |
| `Files.Basename` | pyprika_classes.py:227 | `path.basename` is a suffix of the path without any `'/'`; when it is shorter than the path, the character just before it is a `'/'`, so it starts after the last `'/'` |
| `Files.BasenameOfJoin` | pyprika_classes.py:227 | the base name of a directory path joined with a slash-free name is that name |
| `Files.EntryNameOfFile` | pyprika_classes.py:227 | the base name of a directory path joined with a slash-free name and `.paprikarecipe` is that name plus `.paprikarecipe` |
| `Files.RecipesFilePath` | pyprika_classes.py:201-208 | the archive path is the program directory, then `recipes_file` (or `recipes_import` when it is empty), then `.paprikarecipes` |
| `Files.RecipesFilePathShape` | pyprika_classes.py:201-208 | the archive path starts with the program directory and ends with `.paprikarecipes`; an empty `recipes_file` gives the `recipes_import` archive; distinct non-empty sources give distinct archives |
| `Files.AddEntry` | pyprika_classes.py:226-231 | adding keeps every earlier entry and adds at most one; the name is present afterwards; the archive is unchanged exactly when the name was already present |
| `Files.AddEntryUnique` | pyprika_classes.py:226-231 | adding keeps entry names unique, makes the name present and keeps every earlier entry |
| `Files.AddEntryAgain` | pyprika_classes.py:226-231 | adding a name that is already present, whatever its content, leaves the archive as it is ("Skipped") |
| `Files.AddKeepsUnique` | pyprika_classes.py:226-231 | adding to one archive keeps the names of every archive unique; a present name leaves all archives as they are, and a new one is appended to its archive only |
| `Files.PaprikaFiles.constructor` | pyprika_classes.py:165-167 | a new `pyprika_files` has an empty `recipes_file` and no archive written |
| `Files.PaprikaFiles.GetFilepath` | pyprika_classes.py:113-118 | `get_filepath` is the program directory followed by the file name |
| `Files.PaprikaFiles.GetGzFile` | pyprika_classes.py:187-192 | `get_gz_file` is the program directory, the file name, then `.gz` |
| `Files.PaprikaFiles.GetPaprikaFile` | pyprika_classes.py:194-199 | `get_paprika_file` is the program directory, the file name, then `.paprikarecipe` |
| `Files.PaprikaFiles.GetRecipesFile` | pyprika_classes.py:201-208 | `get_recipes_file` is the program directory, `recipes_file` (or `recipes_import` when it is empty), then `.paprikarecipes` |
| `Files.PaprikaFiles.PathsShape` | pyprika_classes.py:187-199 | `get_gz_file` and `get_paprika_file` put the file in the program directory and end it with `.gz` or `.paprikarecipe`; different names give different paths |
| `Files.PaprikaFiles.EntryNameIsFormatted` | pyprika_classes.py:216-227 | the archive entry name is the formatted recipe name plus `.paprikarecipe` |
| `Files.PaprikaFiles.AddToPaprikaRecipes` | pyprika_classes.py:210-233 | the entry is added to the archive of `get_recipes_file()` only if its name is new; archive names stay unique; `saved` is true exactly when it was added |
| `Scraper.CleanField` | scraper.py:71-77 | lower-case, replace once per table pair in table order, then strip; `""` when the element is absent; the result has no edge whitespace |
| `Scraper.GetServings` | scraper.py:66-77 | `get_servings` is `CleanField` with the servings table |
| `Scraper.GetCooktime` | scraper.py:79-90 | `get_cooktime` is `CleanField` with the cook time table |
| `Scraper.GetNotes` | scraper.py:122-133 | `get_notes` is `CleanField` with the notes table |
| `Scraper.CleanedTextShape` | scraper.py:73-75 | a cleaned field is entirely lower-case and has no whitespace at either end; an absent element gives `""` |
| `Scraper.TablesLower` | scraper.py:49-64 | the last value of each of the three tables is lower-case, so `CleanedTextShape` applies to all of them |
| `Scraper.ApplyTableRemoves` | scraper.py:129-130 | a single-character non-letter key removes that character, and no later pair brings it back when no later value holds it |
| `Scraper.NotesHaveNoCurlyQuotes` | scraper.py:127-131 | cleaned notes hold neither `“` nor `”` |
| `Scraper.NotesWithoutQuotes` | scraper.py:122-133 | for a note without curly quotes, `get_notes` is just the lower-cased, stripped text |
| `Scraper.ServingsExample` | scraper.py:50-75 | with the pairs applied in dict order, "A Serves- B" is cleaned to "a-b": "serves" is removed, which creates " - ", which then becomes "-" |
| `Scraper.ServingsOrderMatters` | scraper.py:50-75 | with the two pairs in the other order, the same text is cleaned to "a - b", so the dict's insertion order decides the result |
| `Scraper.CollapseAll` | scraper.py:141 | item `i` of the comprehension is item `i` with its whitespace collapsed, so order and count are kept |
| `Scraper.JoinedLines` | scraper.py:135-144 | the ingredients text is `""` when the element is absent or holds no `<li>`; for n >= 1 items it has n lines, hence n - 1 newlines, and line `i` is item `i` collapsed |
| `Scraper.LinesOfCollapsed` | scraper.py:141-142 | joining n >= 1 collapsed items with `'\n'` gives n - 1 newlines, and splitting on `'\n'` gives the collapsed items back |
| `Scraper.CollapsedLines` | scraper.py:141 | line `i` is item `i` with single spaces and the same words |
| `Scraper.GetDirections` | scraper.py:146-155 | the directions text is `""` when the element is absent; otherwise as long as the collapsed items plus 2 per item, and with an item it is the items joined by blank lines plus a final `"\n\n"` |
| `Scraper.ParagraphsLength` | scraper.py:152-153 | the directions text is as long as the items together plus 2 per item |
| `Scraper.ParagraphsJoin` | scraper.py:151-155 | directions are the items joined by blank lines, plus a final `"\n\n"`; with an item, the text ends in `"\n\n"` |
| `Scraper.GetCategory` | scraper.py:92-100 | `""` when the element is absent; otherwise a list with one category per anchor; truthy exactly when there is an anchor |
| `Scraper.CategoryShape` | scraper.py:96-98 | each category is title-cased and equals its anchor's text up to case, in document order |
| `Scraper.GetImageUrl` | scraper.py:102-110 | `None` exactly when the photo element is absent; otherwise `"http:"` followed by the image `src` |
| `Scraper.GetPhotoData` | scraper.py:112-120 | the photo data is empty unless there is a non-empty image URL, and with one it is the encoded image |
| `Scraper.BuildRecipe` | scraper.py:193-206 | the built recipe has the stripped name, the row's source and URL, the page's image URL and categories; servings, cook time and notes are lower-case with no edge whitespace; notes hold no curly quote; ingredients and nutritional info are the joined `<li>` lines, directions and photo data come from their helpers; no rating, uid or hash is set |
| `Scraper.SavedSourceUrl` | scraper.py:197 | the saved dict holds `source_url` with the row's URL |
| `Scraper.SavedImageUrl` | scraper.py:201 | `image_url` is saved exactly when the photo element was found, as `"http:"` plus its `src` |
| `Scraper.SavedCategories` | scraper.py:200 | `categories` is saved exactly when there was a category anchor |
| `Scraper.SavedUnset` | scraper.py:193-206 | `rating`, `uid` and `hash` are never saved by the scraper |
| `Scraper.ScrapePage` | scraper.py:193-206 | the fields `run` assigns, through the `get_*` helpers, give `BuildRecipe(row, page)` |
| `Scraper.Decide` | scraper.py:187-215 | 403 retries, 200 with a name element is scraped, and every other answer fails |
| `Scraper.FirstAnswer` | scraper.py:181-188 | the retry loop stops at the first answer that is not a 403; all answers before it were 403 |
| `Scraper.RowVerdict` | scraper.py:181-215 | a row is still retried if and only if every answer so far was a 403; otherwise it is scraped exactly when its first non-403 answer is a 200 with a name element, and failed otherwise |
| `Scraper.RowVerdictPrefix` | scraper.py:181-215 | once a row has an answer other than 403, later answers change nothing |
| `Scraper.RecipeTable.SetRecipeScraped` | sql.py:28-37 | the row with that id gets `scraped = 1`; no other row changes |
| `Scraper.RecipeTable.SetRecipeFailed` | sql.py:39-48 | the row with that id gets `scraped = 2`; no other row changes |
| `Scraper.SaveRecipe` | scraper.py:208-209 | the recipe's dict is added to the archive of the row's source under its formatted name, unless that name is present; the row is marked 1 |
| `Scraper.ScrapeAndSave` | scraper.py:190-211 | a 200 answer with a name builds the recipe from the page and saves it, as `SaveRecipe` says |
| `Scraper.ScrapeRow` | scraper.py:178-215 | `recipes_file` becomes the row's source. While the answers are all 403, nothing is recorded. A 200 with a name adds exactly one archive entry (unless the name is present) and marks the row 1. Any other answer marks it 2 and adds nothing |
| `Scraper.SaveKeepsAndAdds` | scraper.py:208-209 | saving a recipe puts its entry in the archive of its source and drops no entry of any archive |
| `Scraper.SaveRowKeeps` | scraper.py:208-209 | handling one row drops no entry of any archive |
| `Scraper.SaveRowAdds` | scraper.py:208-209 | a scraped row has its entry, named after its stripped, formatted name, in the archive of its source |
| `Scraper.AfterRowsKeeps` | scraper.py:168-219 | handling rows drops no entry that was in the archives before |
| `Scraper.AfterRowsSavedAt` | scraper.py:168-219 | after the rows, scraped row `k` has its entry in the archive of its source, whatever the later rows do |
| `Scraper.AfterRowsSaved` | scraper.py:168-219 | after a run every scraped row's recipe has its entry, named after its stripped name, in the archive of its source |
| `Scraper.RunRow` | scraper.py:178-215 | one row: its verdict is `RowVerdict` of its answers; a retried row changes nothing, any other row extends the archives as `AfterRows` says and marks its id with the code of its verdict |
| `Scraper.MarkStep` | scraper.py:208-215 | with distinct ids, marking row `n` keeps the marks of the rows before it and the status of the rows after it |
| `Scraper.Run` | scraper.py:168-219 | rows are handled in order; every row the run gets past is marked with the code of its verdict (1 scraped, 2 failed); the run stops only at a row still being retried; the archives are exactly `AfterRows` of the finished rows; rows not reached keep their status and no row is added or removed |

## Left out

- HTTP: `ua`, `get`, the 5-second timeout, `request.close` and `time.sleep`. The answers a row receives are an input sequence.
- BeautifulSoup, lxml and CSS-class lookup. Each lookup is an input: the element's text, or the texts of its `<li>`/`<a>` children.
- `get_photo_data`: the fetch and the base64 encoding of the image are an input string. The model keeps only the rule that an empty or missing URL gives `""`.
- gzip and zip writing, `rename_file`, `remove_file`, `make_dir` and `get_path`. The program directory is an opaque prefix `root` ending in `'/'`. An archive is the sequence of its entries.
- `make_dir` passes the `path` module instead of `fpath` to `mkdir` (pyprika_classes.py:110). That call is not modelled.
- Archives already on disk before the run are not modelled: `PaprikaFiles` starts with no archive.
- The `path.exists(gzfile)` test in `add_to_pyprikarecipes` is taken to succeed, because the gzip file was just written.
- `json.dumps` and `.encode("utf-8")`. The archive entry holds the dict as ordered key/value pairs, not as bytes.
- Letter case beyond ASCII: `lower()` and `title()` change only ASCII letters here. `title()` treats only ASCII letters as cased.
- sql.py beyond the `scraped` column (connection, `SELECT`, commit). `get_recipes_rows` is the precondition of `Run`: each row given to it is marked 0 and no id occurs twice. That these are all the rows still marked 0 in the table is not stated.
- `get_recipes_count() > 0` is not modelled separately. With no rows, `Run` does nothing either way.
- pyprika.py, the entry point that configures the CSS selectors and calls `run`. The selectors only choose which element each lookup reads.
- The broad `except Exception` of `run`. An exception, for example a photo element without an `img`, or a failed fetch, skips the row without a status change. That path is not modelled.
- Run: the `while True` loop retries a 403 forever. Here a row's answers are finite, and a row whose answers are all 403 ends the run at that row, unchanged.
- `get_recipe_extension`, `get_recipes_extension` and `get_gzip_extension` only return the constants `RecipeExtension`, `RecipesExtension` and `GzipExtension`.
