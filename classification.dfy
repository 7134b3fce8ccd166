/** `Asset#set_asset_type`, the before-validation callback that picks an
    asset's `AssetType` from the content type of its attached file using the
    ordered `mime_types` table of the media configuration. */
module Classification {

  import opened Wrappers
  import opened RubyText

  /** An `AssetType` row: its id and its `key` (`image`, `audio`, `other`, ...). */
  datatype AssetType = AssetType(id: int, key: string)

  /** The `mime_types` table in iteration order: a key and the content-type
      components that select it. */
  type MimeTable = seq<(string, seq<string>)>

  /** `AssetType.find_by_key`: the first row with the key, or `nil`. */
  function FindByKey(types: seq<AssetType>, key: string): (r: Option<AssetType>)
    ensures r.None? <==> forall t :: t in types ==> t.key != key
    ensures r.Some? ==> r.value in types && r.value.key == key
  {
    if |types| == 0 then None
    else if types[0].key == key then Some(types[0])
    else FindByKey(types[1..], key)
  }

  const FallbackKey: string := "other"

  /** Some string listed for the entry is a whole component of the content type. */
  predicate EntryMatches(components: seq<string>, entry: (string, seq<string>)) {
    exists m :: m in entry.1 && m in components
  }

  /** The key of the LAST entry, in table order, that matches. */
  function LastMatch(components: seq<string>, table: MimeTable): (r: Option<string>)
    ensures r.None? <==> forall i :: 0 <= i < |table| ==> !EntryMatches(components, table[i])
    ensures r.Some? ==>
      exists i :: 0 <= i < |table| && table[i].0 == r.value && EntryMatches(components, table[i]) &&
                  forall j :: i < j < |table| ==> !EntryMatches(components, table[j])
  {
    if |table| == 0 then None
    else if EntryMatches(components, table[|table| - 1]) then Some(table[|table| - 1].0)
    else
      var r := LastMatch(components, table[..|table| - 1]);
      assert forall i :: 0 <= i < |table| - 1 ==> table[..|table| - 1][i] == table[i];
      r
  }

  /** The association after the rule loop: the last matching key's type (which
      may be `nil`), or what was there before when nothing matched. */
  function AfterRules(initial: Option<AssetType>, components: seq<string>, table: MimeTable,
                      types: seq<AssetType>): (r: Option<AssetType>)
  {
    match LastMatch(components, table)
    case None => initial
    case Some(key) => FindByKey(types, key)
  }

  /** The type after the rule loop and the `other` fallback, for the
      components of a content type. */
  function ClassifyComponents(initial: Option<AssetType>, components: seq<string>, table: MimeTable,
                              types: seq<AssetType>): (r: Option<AssetType>)
  {
    var t := AfterRules(initial, components, table, types);
    if t.Some? then t else FindByKey(types, FallbackKey)
  }

  /** The association `set_asset_type` leaves on an asset whose resource has no errors. */
  function Classified(initial: Option<AssetType>, contentType: string, table: MimeTable,
                      types: seq<AssetType>): (r: Option<AssetType>)
  {
    ClassifyComponents(initial, Split(contentType, '/'), table, types)
  }

  /** The asset being created, as far as `set_asset_type` sees it. */
  class NewAsset {
    var contentType: string            // resource_content_type
    var resourceHasErrors: bool        // !resource.errors.blank?
    var assetType: Option<AssetType>   // the asset_type association

    constructor (contentType: string, resourceHasErrors: bool, assetType: Option<AssetType>)
      ensures this.contentType == contentType
      ensures this.resourceHasErrors == resourceHasErrors
      ensures this.assetType == assetType
    {
      this.contentType := contentType;
      this.resourceHasErrors := resourceHasErrors;
      this.assetType := assetType;
    }

    /** Walks the table in order and, for every listed string equal to a
        component of the content type, re-assigns the entry's type; then falls
        back to `other` if no type is set. Nothing happens when the resource
        has errors. */
    method SetAssetType(table: MimeTable, types: seq<AssetType>)
      modifies this`assetType
      ensures resourceHasErrors ==> assetType == old(assetType)
      ensures !resourceHasErrors ==> assetType == Classified(old(assetType), contentType, table, types)
    {
      if resourceHasErrors {
        return;
      }
      var components := Split(contentType, '/');
      var i := 0;
      while i < |table|
        invariant 0 <= i <= |table|
        invariant assetType == AfterRules(old(assetType), components, table[..i], types)
      {
        var key, mimes := table[i].0, table[i].1;
        var j := 0;
        while j < |mimes|
          invariant 0 <= j <= |mimes|
          invariant assetType == if EntryMatches(components, (key, mimes[..j])) then FindByKey(types, key)
                                 else AfterRules(old(assetType), components, table[..i], types)
        {
          if mimes[j] in components {
            assetType := FindByKey(types, key);
          }
          assert mimes[..j + 1] == mimes[..j] + [mimes[j]];
          j := j + 1;
        }
        assert mimes[..j] == mimes;
        assert table[..i + 1][..i] == table[..i];
        i := i + 1;
      }
      assert table[..i] == table;
      if assetType.None? {
        assetType := FindByKey(types, FallbackKey);
      }
    }
  }

  // ---------------------------------------------------------------------------
  // Properties of the classification
  // ---------------------------------------------------------------------------

  /** When the entry at `i` matches and none after it does, its key wins,
      whatever matched before it. */
  lemma LastMatchingKeyWins(components: seq<string>, table: MimeTable, i: nat)
    requires i < |table| && EntryMatches(components, table[i])
    requires forall j :: i < j < |table| ==> !EntryMatches(components, table[j])
    ensures LastMatch(components, table) == Some(table[i].0)
  {
    var r := LastMatch(components, table);
    var k :| 0 <= k < |table| && table[k].0 == r.value && EntryMatches(components, table[k]) &&
             forall j :: k < j < |table| ==> !EntryMatches(components, table[j]);
    assert k == i;
  }

  /** With a `other` row present, every asset without resource errors ends up
      with a type. */
  lemma ClassifiedAlwaysAssigns(initial: Option<AssetType>, contentType: string, table: MimeTable,
                                types: seq<AssetType>)
    requires exists t :: t in types && t.key == FallbackKey
    ensures Classified(initial, contentType, table, types).Some?
  {
  }

  /** Nothing matches: a type set beforehand is kept, otherwise `other` is used. */
  lemma NoMatchFallsBack(initial: Option<AssetType>, contentType: string, table: MimeTable,
                         types: seq<AssetType>)
    requires forall i :: 0 <= i < |table| ==> !EntryMatches(Split(contentType, '/'), table[i])
    ensures Classified(initial, contentType, table, types) ==
      if initial.Some? then initial else FindByKey(types, FallbackKey)
  {
  }

  /** A matched key without an `AssetType` row leaves the type unset after the
      loop, so the fallback applies even over a type set beforehand. */
  lemma MissingTypeFallsBack(initial: Option<AssetType>, contentType: string, table: MimeTable,
                             types: seq<AssetType>, i: nat)
    requires i < |table| && EntryMatches(Split(contentType, '/'), table[i])
    requires forall j :: i < j < |table| ==> !EntryMatches(Split(contentType, '/'), table[j])
    requires forall t :: t in types ==> t.key != table[i].0
    ensures Classified(initial, contentType, table, types) == FindByKey(types, FallbackKey)
  {
    LastMatchingKeyWins(Split(contentType, '/'), table, i);
  }

  /** A content type matched by exactly one entry, whose key has a type row,
      gets that type. */
  lemma UniqueMatchAssigns(initial: Option<AssetType>, contentType: string, table: MimeTable,
                           types: seq<AssetType>, i: nat)
    requires i < |table| && EntryMatches(Split(contentType, '/'), table[i])
    requires forall j :: 0 <= j < |table| && j != i ==> !EntryMatches(Split(contentType, '/'), table[j])
    requires exists t :: t in types && t.key == table[i].0
    ensures Classified(initial, contentType, table, types) == FindByKey(types, table[i].0)
    ensures Classified(initial, contentType, table, types).Some?
  {
    LastMatchingKeyWins(Split(contentType, '/'), table, i);
  }

  /** Classifying again with the same content type and table changes nothing. */
  lemma ClassifiedIdempotent(initial: Option<AssetType>, contentType: string, table: MimeTable,
                             types: seq<AssetType>)
    ensures Classified(Classified(initial, contentType, table, types), contentType, table, types) ==
      Classified(initial, contentType, table, types)
  {
  }

  // ---------------------------------------------------------------------------
  // Worked examples
  // ---------------------------------------------------------------------------

  const ExampleTable: MimeTable := [("image", ["png", "jpeg"]), ("audio", ["mp3"]), ("other", [])]
  const ExampleTypes: seq<AssetType> := [AssetType(1, "image"), AssetType(2, "audio"), AssetType(3, "other")]

  lemma SplitExamples()
    ensures Split("image/png", '/') == ["image", "png"]
    ensures Split("application/pdf", '/') == ["application", "pdf"]
  {
    assert "image/png" == Join(["image", "png"], '/');
    SplitJoin(["image", "png"], '/');
    assert "application/pdf" == Join(["application", "pdf"], '/');
    SplitJoin(["application", "pdf"], '/');
  }

  /** A listed string must equal a whole component: `png` matches
      `image/png`, `pn` does not. */
  lemma WholeComponentsOnly()
    ensures EntryMatches(Split("image/png", '/'), ("image", ["png"]))
    ensures !EntryMatches(Split("image/png", '/'), ("image", ["pn"]))
  {
    SplitExamples();
    assert "png" in ["image", "png"];
    assert "pn" != "image" && "pn" != "png";
  }

  /** `image/png` is an image. */
  lemma ImagePngIsImage()
    ensures ClassifyComponents(None, ["image", "png"], ExampleTable, ExampleTypes) == Some(AssetType(1, "image"))
  {
    var png := ["image", "png"];
    assert EntryMatches(png, ExampleTable[0]) by { assert "png" in ExampleTable[0].1; }
    assert !EntryMatches(png, ExampleTable[1]) by { assert ExampleTable[1].1 == ["mp3"]; }
    assert !EntryMatches(png, ExampleTable[2]) by { assert ExampleTable[2].1 == []; }
    LastMatchingKeyWins(png, ExampleTable, 0);
    assert FindByKey(ExampleTypes, "image") == Some(AssetType(1, "image"));
  }

  /** `application/pdf` matches no entry and falls back to `other`. */
  lemma PdfIsOther()
    ensures ClassifyComponents(None, ["application", "pdf"], ExampleTable, ExampleTypes) == Some(AssetType(3, "other"))
  {
    var pdf := ["application", "pdf"];
    assert !EntryMatches(pdf, ExampleTable[0]) by { assert ExampleTable[0].1 == ["png", "jpeg"]; }
    assert !EntryMatches(pdf, ExampleTable[1]) by { assert ExampleTable[1].1 == ["mp3"]; }
    assert !EntryMatches(pdf, ExampleTable[2]) by { assert ExampleTable[2].1 == []; }
    assert LastMatch(pdf, ExampleTable) == None;
    assert FindByKey(ExampleTypes, "other") == Some(AssetType(3, "other"));
  }

  /** The rule loop never stops early: when two keys list the same string,
      the later key in the table wins. */
  lemma LaterKeyOverrides()
    ensures ClassifyComponents(None, ["image", "png"], [("image", ["png"]), ("logo", ["png"])],
                               [AssetType(1, "image"), AssetType(4, "logo")]) == Some(AssetType(4, "logo"))
  {
    var table: MimeTable := [("image", ["png"]), ("logo", ["png"])];
    assert EntryMatches(["image", "png"], table[1]) by { assert "png" in table[1].1; }
    LastMatchingKeyWins(["image", "png"], table, 1);
  }

  /** The same two examples, starting from the content-type strings. */
  lemma ClassifiedExamples()
    ensures Classified(None, "image/png", ExampleTable, ExampleTypes) == Some(AssetType(1, "image"))
    ensures Classified(None, "application/pdf", ExampleTable, ExampleTypes) == Some(AssetType(3, "other"))
  {
    SplitExamples();
    ImagePngIsImage();
    PdfIsOther();
  }
}
