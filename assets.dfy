/** The asset entity and the two class methods of `Asset` that only look
    things up: `gfind` (generic find by id, name or record) and `visibilize`
    (visibility label to asset subclass). */
module Assets {

  import opened Wrappers
  import opened RubyText
  import opened Inflector

  /** A stored asset row. `typeName` is the single-table-inheritance `type`
      column (the concrete subclass, such as `AssetPublic`); `createdAt` is
      the `created_at` timestamp as a number; `description` may be NULL. */
  datatype Asset = Asset(
    id: int,
    name: string,
    description: Option<string>,
    assetTypeId: int,
    typeName: string,
    createdAt: int)

  // ---------------------------------------------------------------------------
  // gfind
  // ---------------------------------------------------------------------------

  /** The kinds of argument `gfind` distinguishes with its `case`. */
  datatype Something =
    | Integer(n: int)          // a Ruby Integer; only a Fixnum is looked up by id
    | Str(s: string)
    | Sym(sym: string)         // a Symbol, looked up by its `to_s`
    | Record(asset: Asset)     // an Asset instance
    | Other                    // nil, a Float, a Hash, ...

  /** The Fixnum range of 64-bit Ruby 1.8/1.9; larger integers are Bignums. */
  const FixnumMin: int := -0x4000_0000_0000_0000
  const FixnumMax: int := 0x3FFF_FFFF_FFFF_FFFF

  predicate IsFixnum(n: int) { FixnumMin <= n <= FixnumMax }

  /** What a dynamic finder compares: `find_by_id` or `find_by_name`. */
  datatype Key = ById(id: int) | ByName(name: string)

  predicate HasKey(a: Asset, key: Key) {
    match key
    case ById(id) => a.id == id
    case ByName(name) => a.name == name
  }

  /** A dynamic finder over the stored rows: the first row, in store order,
      that has the key, or `nil`. */
  function FindBy(store: seq<Asset>, key: Key): (r: Option<Asset>)
    ensures r.None? <==> forall k :: 0 <= k < |store| ==> !HasKey(store[k], key)
    ensures r.Some? ==>
      exists k :: 0 <= k < |store| && store[k] == r.value && HasKey(r.value, key) &&
                  forall j :: 0 <= j < k ==> !HasKey(store[j], key)
  {
    if |store| == 0 then None
    else if HasKey(store[0], key) then Some(store[0])
    else
      var r := FindBy(store[1..], key);
      assert forall k :: 1 <= k < |store| ==> store[k] == store[1..][k - 1];
      r
  }

  /** `Asset.gfind`: dispatch on the kind of the argument. */
  function Gfind(store: seq<Asset>, something: Something): (r: Option<Asset>)
    ensures something.Record? ==> r == Some(something.asset)
    ensures something.Other? ==> r == None
    ensures something.Integer? && !IsFixnum(something.n) ==> r == None
    ensures something.Integer? && IsFixnum(something.n) ==>
      (r.None? <==> forall a :: a in store ==> a.id != something.n)
    ensures something.Integer? && r.Some? ==> r.value in store && r.value.id == something.n
    ensures something.Str? ==> (r.None? <==> forall a :: a in store ==> a.name != something.s)
    ensures something.Str? && r.Some? ==> r.value in store && r.value.name == something.s
    ensures something.Sym? ==> (r.None? <==> forall a :: a in store ==> a.name != something.sym)
    ensures something.Sym? && r.Some? ==> r.value in store && r.value.name == something.sym
  {
    match something
    case Integer(n) => if IsFixnum(n) then FindBy(store, ById(n)) else None
    case Str(s) => FindBy(store, ByName(s))
    case Sym(sym) => FindBy(store, ByName(sym))
    case Record(a) => Some(a)
    case Other => None
  }

  predicate UniqueIds(store: seq<Asset>) {
    forall i, j :: 0 <= i < |store| && 0 <= j < |store| && store[i].id == store[j].id ==> i == j
  }

  predicate UniqueNames(store: seq<Asset>) {
    forall i, j :: 0 <= i < |store| && 0 <= j < |store| && store[i].name == store[j].name ==> i == j
  }

  /** An existing asset is found alike by its id, by its name as a String or a
      Symbol, and by the record itself (ids are a primary key; names are
      assumed unique here because `find_by_name` otherwise returns the first). */
  lemma GfindAgrees(store: seq<Asset>, a: Asset)
    requires a in store && UniqueIds(store) && UniqueNames(store) && IsFixnum(a.id)
    ensures Gfind(store, Integer(a.id)) == Some(a)
    ensures Gfind(store, Str(a.name)) == Some(a)
    ensures Gfind(store, Sym(a.name)) == Some(a)
    ensures Gfind(store, Record(a)) == Some(a)
  {
    var byId := Gfind(store, Integer(a.id));
    var byName := Gfind(store, Str(a.name));
    var i :| 0 <= i < |store| && store[i] == a;
    assert byId.Some? && byName.Some?;
    var k1 :| 0 <= k1 < |store| && store[k1] == byId.value;
    var k2 :| 0 <= k2 < |store| && store[k2] == byName.value;
    assert k1 == i && k2 == i;
  }

  /** A Symbol is looked up exactly as its String form: `:logo` and `"logo"` agree. */
  lemma SymbolAsString(store: seq<Asset>, name: string)
    ensures Gfind(store, Sym(name)) == Gfind(store, Str(name))
  {
  }

  // ---------------------------------------------------------------------------
  // visibilize
  // ---------------------------------------------------------------------------

  /** `"asset_#{visibility}".classify`: the class name a visibility label stands for. */
  function VisibilityName(visibility: string): (name: string) {
    Classify("asset_" + visibility)
  }

  /** `constantize` raising NameError. */
  datatype NameError = UninitializedConstant(name: string)

  /** `Asset.visibilize`: the subclass named by the label, looked up among the
      defined class names; an undefined name is an error, never a default. */
  function Visibilize(visibility: string, defined: set<string>): (r: Result<string, NameError>)
    ensures r.Success? <==> VisibilityName(visibility) in defined
    ensures r.Success? ==> r.value == VisibilityName(visibility)
    ensures r.Failure? ==> r.error == UninitializedConstant(VisibilityName(visibility))
  {
    var name := VisibilityName(visibility);
    if name in defined then Success(name) else Failure(UninitializedConstant(name))
  }

  // The next two lemmas are proof steps only, kept apart from
  // VisibilityNameOfWords for solver performance: with the string literals
  // and the camelizer's definition in one proof, the solver runs out of
  // resource.

  /** Proof step: `"asset_" + v` is `"asset" + "_" + v`. */
  lemma VisibilityNameUnfold(visibility: string)
    ensures VisibilityName(visibility) == Camelize("asset" + "_" + visibility)
  {
    assert "asset_" + visibility == "asset" + "_" + visibility;
  }

  /** Proof step: `asset` with its first letter upper-cased is `Asset`. */
  lemma AssetCapitalized(rest: string)
    ensures UpcaseFirst("asset") + rest == "Asset" + rest
  {
    assert UpcaseFirst("asset") == "Asset";
  }

  /** For a label made of underscore-separated words the class name is `Asset`
      followed by each word with its first letter upper-cased. */
  lemma VisibilityNameOfWords(words: seq<string>)
    requires |words| >= 1
    requires forall w :: w in words ==> |w| >= 1 && '_' !in w
    ensures VisibilityName(Join(words, '_')) == "Asset" + UpcaseFirstAll(words)
  {
    CamelizePrefixed("asset", words);
    VisibilityNameUnfold(Join(words, '_'));
    AssetCapitalized(UpcaseFirstAll(words));
  }

  /** A one-word label: `public` names `AssetPublic`. */
  lemma VisibilityNameOfWord(word: string)
    requires |word| >= 1 && '_' !in word
    ensures VisibilityName(word) == "Asset" + UpcaseFirst(word)
  {
    VisibilityNameOfWords([word]);
    assert UpcaseFirstAll([word]) == UpcaseFirst(word) + UpcaseFirstAll([]);
  }

  /** `visibilize("public")` is the `AssetPublic` class when it is defined, and
      an unknown label such as `secret` is an error. */
  lemma VisibilizeExamples()
    ensures Visibilize("public", {"AssetPublic", "AssetPrivate"}) == Success("AssetPublic")
    ensures Visibilize("secret", {"AssetPublic", "AssetPrivate"}).Failure?
  {
    VisibilityNameOfWord("public");
    assert UpcaseFirst("public") == "Public";
    assert "Asset" + "Public" == "AssetPublic";
    VisibilityNameOfWord("secret");
    assert UpcaseFirst("secret") == "Secret";
    assert "Asset" + "Secret" == "AssetSecret";
    assert "AssetSecret"[5] != "AssetPublic"[5] && "AssetSecret"[5] != "AssetPrivate"[5];
  }
}
