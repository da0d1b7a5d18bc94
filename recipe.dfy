/**
 * The recipe record of the Paprika archive format and its serialisation
 * (`pyprika_recipe` and `get_dict`). The JSON object is modelled as the ordered
 * list of its key/value pairs, as a Python dict keeps them.
 */
module Recipe {
  import opened Wrappers

  /** A value stored in the serialised dict. */
  datatype JsonValue = JStr(s: string) | JList(items: seq<string>) | JInt(n: int) | JNull

  /** Python truthiness, which each `if self.<field>:` of `get_dict` tests. */
  predicate Truthy(v: JsonValue) {
    match v
    case JStr(s) => s != []
    case JList(xs) => xs != []
    case JInt(n) => n != 0
    case JNull => false
  }

  /** The keys `get_dict` may write. */
  datatype Key =
    Name | CookTime | Photo | PhotoLarge | PhotoHash | PhotoData | Photos | TotalTime
    | PrepTime | Notes | Servings | Created | Source | SourceUrl | Rating | Uid
    | ImageUrl | Directions | NutritionalInfo | Categories | Description | Ingredients | Difficulty | Hash

  /** The JSON text of a key. */
  function KeyName(k: Key): string {
    match k
    case Name => "name"
    case CookTime => "cook_time"
    case Photo => "photo"
    case PhotoLarge => "photo_large"
    case PhotoHash => "photo_hash"
    case PhotoData => "photo_data"
    case Photos => "photos"
    case TotalTime => "total_time"
    case PrepTime => "prep_time"
    case Notes => "notes"
    case Servings => "servings"
    case Created => "created"
    case Source => "source"
    case SourceUrl => "source_url"
    case Rating => "rating"
    case Uid => "uid"
    case ImageUrl => "image_url"
    case Directions => "directions"
    case NutritionalInfo => "nutritional_info"
    case Categories => "categories"
    case Description => "description"
    case Ingredients => "ingredients"
    case Difficulty => "difficulty"
    case Hash => "hash"
  }

  /** The number of distinct keys `get_dict` may write. */
  const KeyCount := 24

  /**
   * The keys of `get_dict`, by the position of their first `update`; written
   * as a balanced decision so that any position is found in a few comparisons.
   */
  function KeyAt(i: nat): Key
    requires i < KeyCount
  {
    if i < 12 then
      if i < 6 then
        if i < 3 then
          if i < 1 then
            Name
          else
            if i < 2 then
              CookTime
            else
              Photo
        else
          if i < 4 then
            PhotoLarge
          else
            if i < 5 then
              PhotoHash
            else
              PhotoData
      else
        if i < 9 then
          if i < 7 then
            Photos
          else
            if i < 8 then
              TotalTime
            else
              PrepTime
        else
          if i < 10 then
            Notes
          else
            if i < 11 then
              Servings
            else
              Created
    else
      if i < 18 then
        if i < 15 then
          if i < 13 then
            Source
          else
            if i < 14 then
              SourceUrl
            else
              Rating
        else
          if i < 16 then
            Uid
          else
            if i < 17 then
              ImageUrl
            else
              Directions
      else
        if i < 21 then
          if i < 19 then
            NutritionalInfo
          else
            if i < 20 then
              Categories
            else
              Description
        else
          if i < 22 then
            Ingredients
          else
            if i < 23 then
              Difficulty
            else
              Hash
  }

  /** The position of the first `update` of a key. */
  function KeyIndex(k: Key): (i: nat)
    ensures i < KeyCount && KeyAt(i) == k
  {
    match k
    case Name => 0
    case CookTime => 1
    case Photo => 2
    case PhotoLarge => 3
    case PhotoHash => 4
    case PhotoData => 5
    case Photos => 6
    case TotalTime => 7
    case PrepTime => 8
    case Notes => 9
    case Servings => 10
    case Created => 11
    case Source => 12
    case SourceUrl => 13
    case Rating => 14
    case Uid => 15
    case ImageUrl => 16
    case Directions => 17
    case NutritionalInfo => 18
    case Categories => 19
    case Description => 20
    case Ingredients => 21
    case Difficulty => 22
    case Hash => 23
  }

  /** `KeyIndex` and `KeyAt` are inverse: no key has two positions. */
  lemma {:induction false} KeyIndexAt(i: nat)
    requires i < KeyCount
    ensures KeyIndex(KeyAt(i)) == i
  {
  }

  /** Different keys are written as different JSON texts. */
  lemma {:induction false} KeyNameInjective(a: Key, b: Key)
    ensures KeyName(a) == KeyName(b) ==> a == b
  {
  }

  /** A Python dict: key/value pairs in insertion order. */
  type Dict = seq<(Key, JsonValue)>

  function Keys(d: Dict): (ks: seq<Key>)
    ensures |ks| == |d| && forall i :: 0 <= i < |d| ==> ks[i] == d[i].0
  {
    seq(|d|, i requires 0 <= i < |d| => d[i].0)
  }

  /** `d[k]`, or `None` when `k` is not a key. */
  function Lookup(d: Dict, k: Key): (v: Option<JsonValue>)
    ensures v.Some? <==> k in Keys(d)
  {
    if d == [] then None else if d[0].0 == k then Some(d[0].1) else Lookup(d[1..], k)
  }

  /**
   * `d.update({k: v})`: a new key goes to the end; an existing key keeps its
   * position and takes the new value.
   */
  function Update(d: Dict, k: Key, v: JsonValue): (r: Dict)
    ensures Lookup(r, k) == Some(v)
    ensures forall j :: j != k ==> Lookup(r, j) == Lookup(d, j)
    ensures |r| == if k in Keys(d) then |d| else |d| + 1
    ensures forall i :: 0 <= i < |d| ==> r[i].0 == d[i].0
  {
    if d == [] then [(k, v)]
    else if d[0].0 == k then [(k, v)] + d[1..]
    else
      var rest := Update(d[1..], k, v);
      assert Keys(d[1..]) == Keys(d)[1..];
      var r := [d[0]] + rest;
      assert r[0] == d[0] && r[1..] == rest;
      r
  }

  /** `update` appends a key that is not yet in the dict. */
  lemma {:induction false} UpdateAppends(d: Dict, k: Key, v: JsonValue)
    requires k !in Keys(d)
    ensures Update(d, k, v) == d + [(k, v)]
  {
    if d != [] {
      assert Keys(d)[0] == d[0].0 && Keys(d[1..]) == Keys(d)[1..];
      assert Update(d, k, v) == [d[0]] + Update(d[1..], k, v);
      UpdateAppends(d[1..], k, v);
      assert [d[0]] + (d[1..] + [(k, v)]) == d + [(k, v)];
    }
  }

  /** `update` leaves a key that already holds the value as it is. */
  lemma {:induction false} UpdateSame(d: Dict, k: Key, v: JsonValue)
    requires Lookup(d, k) == Some(v)
    ensures Update(d, k, v) == d
  {
    if d[0].0 != k {
      UpdateSame(d[1..], k, v);
      assert [d[0]] + d[1..] == d;
    }
  }

  /** The instance attributes of `pyprika_recipe`. `source` is one attribute, though `__init__` assigns it twice. */
  datatype Recipe = Recipe(
    name: string,
    cookTime: string,
    photo: string,
    photoLarge: string,
    photoHash: string,
    photoData: string,
    photos: seq<string>,
    totalTime: string,
    prepTime: string,
    notes: string,
    servings: string,
    created: string,
    source: string,
    sourceUrl: string,
    rating: int,
    uid: string,
    imageUrl: Option<string>,
    directions: string,
    nutritionalInfo: string,
    categories: JsonValue,
    description: string,
    ingredients: string,
    difficulty: string,
    hash: string)

  /** A freshly constructed `pyprika_recipe()`: every attribute is falsy. */
  function NewRecipe(): (r: Recipe)
    ensures forall k :: !Truthy(FieldValue(r, k))
  {
    Recipe("", "", "", "", "", "", [], "", "", "", "", "", "", "", 0, "", None,
           "", "", JList([]), "", "", "", "")
  }

  function OptionValue(o: Option<string>): JsonValue {
    match o
    case Some(u) => JStr(u)
    case None => JNull
  }

  /** The value `get_dict` tests and writes under key `k`. */
  function FieldValue(r: Recipe, k: Key): JsonValue {
    match k
    case Name => JStr(r.name)
    case CookTime => JStr(r.cookTime)
    case Photo => JStr(r.photo)
    case PhotoLarge => JStr(r.photoLarge)
    case PhotoHash => JStr(r.photoHash)
    case PhotoData => JStr(r.photoData)
    case Photos => JList(r.photos)
    case TotalTime => JStr(r.totalTime)
    case PrepTime => JStr(r.prepTime)
    case Notes => JStr(r.notes)
    case Servings => JStr(r.servings)
    case Created => JStr(r.created)
    case Source => JStr(r.source)
    case SourceUrl => JStr(r.sourceUrl)
    case Rating => JInt(r.rating)
    case Uid => JStr(r.uid)
    case ImageUrl => OptionValue(r.imageUrl)
    case Directions => JStr(r.directions)
    case NutritionalInfo => JStr(r.nutritionalInfo)
    case Categories => r.categories
    case Description => JStr(r.description)
    case Ingredients => JStr(r.ingredients)
    case Difficulty => JStr(r.difficulty)
    case Hash => JStr(r.hash)
  }

  /**
   * The dict `get_dict` holds once it has passed the first `n` keys: the
   * truthy fields among them, in that order.
   */
  function Built(r: Recipe, n: nat): Dict
    requires n <= KeyCount
  {
    if n == 0 then []
    else
      var k := KeyAt(n - 1);
      Built(r, n - 1) + if Truthy(FieldValue(r, k)) then [(k, FieldValue(r, k))] else []
  }

  /**
   * What `get_dict` serialises: every pair is a truthy field with its own
   * value, and the keys follow the order of the updates.
   */
  function ToDict(r: Recipe): (d: Dict)
    ensures forall p :: p in d ==> Truthy(p.1) && p.1 == FieldValue(r, p.0)
    ensures Ascending(d)
  {
    BuiltElements(r, KeyCount);
    BuiltAscending(r, KeyCount);
    Built(r, KeyCount)
  }

  /** The keys of `d` follow the order of the first updates. */
  predicate Ascending(d: Dict) {
    forall a, b :: 0 <= a < b < |d| ==> KeyIndex(d[a].0) < KeyIndex(d[b].0)
  }

  /** Every pair written so far is a truthy field among the first `n`, with its own value. */
  lemma {:induction false} BuiltElements(r: Recipe, n: nat)
    requires n <= KeyCount
    ensures forall p :: p in Built(r, n) ==> KeyIndex(p.0) < n && Truthy(p.1) && p.1 == FieldValue(r, p.0)
  {
    if n > 0 {
      BuiltElements(r, n - 1);
      KeyIndexAt(n - 1);
    }
  }

  /** The key at position `n` is not yet in the dict built from the keys before it. */
  lemma {:induction false} KeyIsNew(r: Recipe, n: nat)
    requires n < KeyCount
    ensures KeyAt(n) !in Keys(Built(r, n))
  {
    var d := Built(r, n);
    BuiltElements(r, n);
    KeyIndexAt(n);
    forall i | 0 <= i < |d| ensures d[i].0 != KeyAt(n) {
      assert d[i] in d;
    }
  }

  /** A truthy field already passed is found in the dict with its value. */
  lemma {:induction false} LookupPassed(r: Recipe, n: nat, k: Key)
    requires KeyIndex(k) < n <= KeyCount && Truthy(FieldValue(r, k))
    ensures Lookup(Built(r, n), k) == Some(FieldValue(r, k))
  {
    var d := Built(r, n - 1);
    if KeyIndex(k) == n - 1 {
      KeyIsNew(r, n - 1);
      LookupAppend(d, (k, FieldValue(r, k)));
    } else {
      LookupPassed(r, n - 1, k);
      var k' := KeyAt(n - 1);
      LookupPrefix(d, if Truthy(FieldValue(r, k')) then [(k', FieldValue(r, k'))] else [], k);
    }
  }

  lemma {:induction false} LookupAppend(d: Dict, p: (Key, JsonValue))
    ensures p.0 !in Keys(d) ==> Lookup(d + [p], p.0) == Some(p.1)
  {
    if d != [] && p.0 !in Keys(d) {
      assert (d + [p])[1..] == d[1..] + [p];
      assert Keys(d[1..]) == Keys(d)[1..];
      LookupAppend(d[1..], p);
    }
  }

  lemma {:induction false} LookupPrefix(d: Dict, e: Dict, k: Key)
    requires k in Keys(d)
    ensures Lookup(d + e, k) == Lookup(d, k)
  {
    if d[0].0 != k {
      assert (d + e)[1..] == d[1..] + e;
      assert Keys(d[1..]) == Keys(d)[1..];
      LookupPrefix(d[1..], e, k);
    }
  }

  /** A falsy field leaves no pair with its key. */
  lemma {:induction false} BuiltSkips(r: Recipe, n: nat, k: Key)
    requires n <= KeyCount && !Truthy(FieldValue(r, k))
    ensures k !in Keys(Built(r, n))
  {
    var d := Built(r, n);
    BuiltElements(r, n);
    forall i | 0 <= i < |d| ensures d[i].0 != k {
      assert d[i] in d;
    }
  }

  lemma {:induction false} BuiltAscending(r: Recipe, n: nat)
    requires n <= KeyCount
    ensures Ascending(Built(r, n))
  {
    if n > 0 {
      BuiltAscending(r, n - 1);
      BuiltElements(r, n - 1);
      KeyIndexAt(n - 1);
    }
  }

  /**
   * A key is in the serialised dict exactly when its field is truthy, and then
   * it holds that field's value.
   */
  lemma {:induction false} ToDictLookup(r: Recipe, k: Key)
    ensures Lookup(ToDict(r), k) == if Truthy(FieldValue(r, k)) then Some(FieldValue(r, k)) else None
  {
    if Truthy(FieldValue(r, k)) {
      LookupPassed(r, KeyCount, k);
    } else {
      BuiltSkips(r, KeyCount, k);
    }
  }

  /**
   * The serialised keys follow the order of the assignments, so none repeats;
   * hence no two are written as the same JSON text.
   */
  lemma {:induction false} ToDictInOrder(r: Recipe)
    ensures forall a, b :: 0 <= a < b < |ToDict(r)| ==> KeyName(ToDict(r)[a].0) != KeyName(ToDict(r)[b].0)
  {
    forall a, b | 0 <= a < b < |ToDict(r)| ensures KeyName(ToDict(r)[a].0) != KeyName(ToDict(r)[b].0) {
      KeyNameInjective(ToDict(r)[a].0, ToDict(r)[b].0);
    }
  }

  lemma {:induction false} NewRecipeBuilt(n: nat)
    requires n <= KeyCount
    ensures Built(NewRecipe(), n) == []
  {
    if n > 0 {
      NewRecipeBuilt(n - 1);
    }
  }

  /** A fresh recipe serialises to the empty object. */
  lemma {:induction false} NewRecipeEmpty()
    ensures ToDict(NewRecipe()) == []
  {
    NewRecipeBuilt(KeyCount);
  }

  /** One guarded `update` of `get_dict` extends the dict by the field of `k` when that field is truthy. */
  lemma {:induction false} DictStep(r: Recipe, k: Key, data: Dict)
    requires data == Built(r, KeyIndex(k))
    ensures Built(r, KeyIndex(k) + 1) == if Truthy(FieldValue(r, k)) then Update(data, k, FieldValue(r, k)) else data
  {
    KeyIsNew(r, KeyIndex(k));
    UpdateAppends(data, k, FieldValue(r, k));
  }

  /** The second `source` update of `get_dict` finds `source` already holding the same value. */
  lemma {:induction false} SourceAgain(r: Recipe, data: Dict)
    requires data == Built(r, 20) && r.source != []
    ensures Update(data, Source, JStr(r.source)) == data
  {
    LookupPassed(r, KeyIndex(Categories) + 1, Source);
    UpdateSame(data, Source, JStr(r.source));
  }

  /**
   * `if self.<field>: data.update({"<key>": self.<field>})`, the statement
   * `get_dict` repeats per attribute: the dict grows by the field of `k` when
   * that field is truthy.
   */
  method PutIfTruthy(data: Dict, r: Recipe, k: Key, ghost j: nat) returns (d: Dict)
    requires j < KeyCount && KeyAt(j) == k && data == Built(r, j)
    ensures d == Built(r, j + 1)
  {
    KeyIndexAt(j);
    DictStep(r, k, data);
    d := data;
    if Truthy(FieldValue(r, k)) {
      d := Update(data, k, FieldValue(r, k));
    }
  }

  /**
   * The repeated `if self.source: data.update({"source": self.source})`: by
   * then `source` is already in the dict with the same value, so it changes nothing.
   */
  method PutSourceAgain(data: Dict, r: Recipe) returns (d: Dict)
    requires data == Built(r, 20)
    ensures d == data
  {
    d := data;
    if r.source != [] {
      SourceAgain(r, data);
      d := Update(data, Source, JStr(r.source));
    }
  }

  /**
   * `get_dict`: one guarded `update` per attribute, in the order of the source.
   * The result is `ToDict(r)`.
   */
  method GetDict(r: Recipe) returns (data: Dict)
    ensures data == ToDict(r)
  {
    data := [];
    data := PutIfTruthy(data, r, Name, 0);
    data := PutIfTruthy(data, r, CookTime, 1);
    data := PutIfTruthy(data, r, Photo, 2);
    data := PutIfTruthy(data, r, PhotoLarge, 3);
    data := PutIfTruthy(data, r, PhotoHash, 4);
    data := PutIfTruthy(data, r, PhotoData, 5);
    data := PutIfTruthy(data, r, Photos, 6);
    data := PutIfTruthy(data, r, TotalTime, 7);
    data := PutIfTruthy(data, r, PrepTime, 8);
    data := PutIfTruthy(data, r, Notes, 9);
    data := PutIfTruthy(data, r, Servings, 10);
    data := PutIfTruthy(data, r, Created, 11);
    data := PutIfTruthy(data, r, Source, 12);
    data := PutIfTruthy(data, r, SourceUrl, 13);
    data := PutIfTruthy(data, r, Rating, 14);
    data := PutIfTruthy(data, r, Uid, 15);
    data := PutIfTruthy(data, r, ImageUrl, 16);
    data := PutIfTruthy(data, r, Directions, 17);
    data := PutIfTruthy(data, r, NutritionalInfo, 18);
    data := PutIfTruthy(data, r, Categories, 19);
    data := PutSourceAgain(data, r);
    data := PutIfTruthy(data, r, Description, 20);
    data := PutIfTruthy(data, r, Ingredients, 21);
    data := PutIfTruthy(data, r, Difficulty, 22);
    data := PutIfTruthy(data, r, Hash, 23);
  }
}
