# Asset model of ubiquo_media, in Dafny

This project models the logic in `Asset` (`app/models/asset.rb`) of the
ubiquo_media Rails plugin. An asset is a named resource with one attached
file. The model covers four parts:

- **`Asset.gfind`**: generic lookup. An integer is looked up by id, a String
  or Symbol by exact name, and an `Asset` is returned as it is. Anything else
  gives `nil`. The model is `Assets.Gfind`, a dispatch over the tagged union
  `Assets.Something` and an in-memory store `seq<Asset>`. It returns
  `Option<Asset>`.
- **`Asset.filtered_search`**: up to five optional conditions (type ids,
  text, visibility, created-at lower and upper bound). Each one is wrapped in
  its own `with_scope` around `Asset.find(:all)`. The model is
  `Search.FilteredSearch`. It builds the five scope hashes as `Option<Condition>`
  values (`None` is the empty hash `{}`) and nests them as the source does
  (`Search.Nest`). Each scope filters the rows of the query inside it. The lemmas prove that:
  - the nesting is exactly the conjunction of the conditions;
  - the order of the nesting does not matter;
  - adding a filter never enlarges the result;
  - each filter means what it says.
- **`Asset.visibilize`**: `"asset_#{v}".classify.constantize`. The model is
  `Assets.Visibilize`, built on the Rails 2 `camelize` rule
  (`Inflector.Camelize`). A name that is not defined gives a `NameError`
  failure.
- **`set_asset_type`**: the callback that runs before validation on create.
  It splits the content type on `/` and walks the ordered `mime_types` table.
  It re-assigns `asset_type` whenever a listed string equals a whole component.
  If no type is set at the end, it falls back to the `other` type. The model
  is the class `Classification.NewAsset`, whose method `SetAssetType` runs
  the same nested loops and updates the `assetType` field in place. Its
  `ensures` ties the new field value to the pure function
  `Classification.Classified`, which is defined through `LastMatch`, the key
  of the last matching table entry.

Supporting modules:

- `Wrappers`: `Option` and `Result`.
- `RubyText`: the Ruby and Rails string primitives the source uses:
  `blank?`, ASCII `upcase`, substring search, `split`/`join` and `to_i`.
- `Inflector`: `camelize` and `classify`.

Things the model takes as parameters:

- the stored rows (`seq<Asset>`);
- the `AssetType` rows (`seq<AssetType>`);
- the `mime_types` configuration table, as an ordered
  `seq<(string, seq<string>)>` that replaces `Ubiquo::Config`;
- the set of defined class names that `constantize` looks up.

Behaviour of the code that is easy to misread (the model follows the code):

- **The last match wins in `set_asset_type`, not the first.** The loops never
  break, so a later table entry that matches overrides an earlier one
  (`Classification.LaterKeyOverrides`).
- **A type set before the callback is kept when nothing matches.** The
  fallback runs only `unless self.asset_type`.
- **A matched key with no `AssetType` row sets the type to `nil`.** The
  fallback then applies, even over a type that was set before the callback
  (`Classification.MissingTypeFallsBack`).
- **The visibility filter calls `classify` but not `constantize`.** An
  undefined label therefore matches no row and raises nothing. Only
  `visibilize` fails on an undefined name.
- **A malformed `:type` list is not rejected.** `to_i` reads a token that is
  not a number as its leading digits, or as 0. An empty `:type` string gives
  an empty id list, and `IN (NULL)` then matches no row.

## Model

| member | source | states |
|---|---|---|
| `Assets.FindBy` | app/models/asset.rb:16-18 | the dynamic finder returns the first stored row with the id or name, and returns nil exactly when no row has it |
| `Assets.Gfind` | app/models/asset.rb:13-24 | an Asset argument comes back unchanged; anything that is not an Integer, String, Symbol or Asset gives nil; a Bignum gives nil; a Fixnum finds a stored row with that id, or nil exactly when no row has it; a String or Symbol finds a row with that exact name, or nil exactly when no row has it |
| `Assets.SymbolAsString` | app/models/asset.rb:17-18 | a Symbol is looked up by its `to_s`, so `:logo` and `"logo"` give the same result |
| `Assets.GfindAgrees` | app/models/asset.rb:14-20 | in a store with unique ids and names, an existing asset is returned by its id, by its name as a String or a Symbol, and by the record itself |
| `Assets.Visibilize` | app/models/asset.rb:74-76 | gives the class named by `"asset_" + label` camelized exactly when that name is defined, and otherwise a NameError for that name (no silent default) |
| `Assets.VisibilityNameOfWords` | app/models/asset.rb:75 | for an underscore-separated label, the class name is `Asset` followed by each word with its first letter upper-cased |
| `Assets.VisibilizeExamples` | app/models/asset.rb:74-76 | `public` resolves to `AssetPublic`; an undefined label such as `secret` is an error |
| `Inflector.CamelizeWords` | app/models/asset.rb:45 | camelize upper-cases the first character of each underscore-separated word and drops the underscores |
| `Inflector.CamelizePrefixed` | app/models/asset.rb:75 | a word, an underscore and a word list camelize word by word (`asset_` + label) |
| `RubyText.Contains` | app/models/asset.rb:39-40 | the front-to-back search is true exactly when the text occurs at some position of the field (`LIKE '%text%'`) |
| `RubyText.UpcaseForgetsCase` | app/models/asset.rb:40 | upper-casing makes the text's original case irrelevant (`upper(...)` on both sides) |
| `RubyText.JoinSplitAll` | app/models/asset.rb:84 | joining the split fields with the separator gives the original string back |
| `RubyText.SplitJoin` | app/models/asset.rb:34 | `split` gives back non-empty fields that contain no separator after they are joined |
| `RubyText.ToIDecimal` | app/models/asset.rb:34 | `to_i` reads back a decimal number exactly |
| `Search.WithScope` | app/models/asset.rb:58-70 | one scope keeps exactly the inner rows its condition admits, and never more rows than the inner query returns |
| `Search.Select` | app/models/asset.rb:57-71 | the one-pass reading: the rows that satisfy every scope, and no others |
| `Search.NestIsConjunction` | app/models/asset.rb:57-71 | the nested `with_scope` calls return exactly the rows, in store order, that satisfy the conjunction of all the scopes |
| `Search.NestOrderIrrelevant` | app/models/asset.rb:57-71 | nesting the same scopes in any other order gives the same rows |
| `Search.ScopeOrderIrrelevant` | app/models/asset.rb:58-62 | any permutation of the five filter scopes returns what `filtered_search` returns |
| `Search.FilteredSearchSpec` | app/models/asset.rb:32-72 | an asset is returned exactly when it is stored and meets every given filter: type id listed; name or non-NULL description contains the text ignoring case; `type` equal to the camelized visibility name; created-at within the inclusive bounds |
| `Search.Unfiltered` | app/models/asset.rb:33-56 | with no type or date filter and a blank or absent text and visibility, every asset is returned in order |
| `Search.AddingFiltersNarrows` | app/models/asset.rb:57-71 | a search that keeps every filter of another and may add more returns that search's rows filtered again, so never more rows |
| `Search.TextFilterIgnoresCase` | app/models/asset.rb:38-41 | searching for the upper-cased text returns the same rows as the text as given |
| `Search.ParseIdList` | app/models/asset.rb:33-35 | a comma-separated list of decimal ids is parsed back into exactly those ids |
| `Search.ParseIdsExample` | app/models/asset.rb:34 | `"3,5"` parses to `[3, 5]` |
| `Search.TypeFilterKeepsListed` | app/models/asset.rb:33-35 | the type filter keeps exactly the stored assets whose `asset_type_id` is listed |
| `Search.DateBoundsInclusive` | app/models/asset.rb:48-55 | an asset created exactly at the start and the end bounds is returned (both bounds inclusive) |
| `Search.VisibilityFilterAgreesWithVisibilize` | app/models/asset.rb:44-47 | the visibility filter keeps exactly the assets whose `type` is the camelized name, which is the class `visibilize` returns when that class is defined |
| `Classification.FindByKey` | app/models/asset.rb:88 | `AssetType.find_by_key` returns a row with that key, or nil exactly when there is none |
| `Classification.LastMatch` | app/models/asset.rb:85-91 | the selected key is that of a matching entry with no matching entry after it, and there is none exactly when no entry matches |
| `Classification.NewAsset.SetAssetType` | app/models/asset.rb:80-94 | a resource with errors leaves the type unchanged; otherwise the new type is the last matching key's type, or the earlier type, with the `other` fallback when none is set |
| `Classification.LastMatchingKeyWins` | app/models/asset.rb:85-91 | a matching entry with no later matching entry decides the key, whatever matched before it |
| `Classification.ClassifiedAlwaysAssigns` | app/models/asset.rb:92 | when an `other` type exists, the asset always ends up with a type |
| `Classification.NoMatchFallsBack` | app/models/asset.rb:92 | when nothing matches, a type set earlier is kept, and otherwise `other` is used |
| `Classification.MissingTypeFallsBack` | app/models/asset.rb:88-92 | a winning key with no `AssetType` row gives the `other` fallback |
| `Classification.UniqueMatchAssigns` | app/models/asset.rb:84-91 | a content type that exactly one entry matches gets that entry's type |
| `Classification.ClassifiedIdempotent` | app/models/asset.rb:80-94 | classifying again with the same content type and table changes nothing |
| `Classification.SplitExamples` | app/models/asset.rb:84 | `image/png` splits into `image` and `png`, and `application/pdf` into `application` and `pdf` |
| `Classification.WholeComponentsOnly` | app/models/asset.rb:84-87 | `png` matches `image/png` but `pn` does not: a listed string must equal a whole component |
| `Classification.ImagePngIsImage` | app/models/asset.rb:84-91 | with the table image/audio/other, the components of `image/png` give the image type |
| `Classification.PdfIsOther` | app/models/asset.rb:84-92 | with the same table, the components of `application/pdf` match nothing and give `other` |
| `Classification.LaterKeyOverrides` | app/models/asset.rb:85-91 | when two keys list `png`, the later key in the table wins |
| `Classification.ClassifiedExamples` | app/models/asset.rb:80-94 | from the content-type strings: `image/png` gets the image type and `application/pdf` gets `other` |

## Left out

- Persistence is not modelled. This covers ActiveRecord associations, the
  `:dependent => :destroy` cascade, `validates_presence_of`, the callback
  registration and the `after_update` hook. Queries are filters over an
  in-memory sequence of rows, not SQL.
- The `options` hash of `gfind` and of `filtered_search` is not modelled. It
  holds extra find options: pagination, ordering, joins and conditions. These
  belong to the persistence layer.
- `uhook_filtered_search` is an external plugin hook. It is treated as passing
  the search through.
- `Ubiquo::Config` is not read. The `mime_types` table is passed in as an
  ordered sequence. Its keys and listed strings are strings, not Symbols.
- `classify` only camelizes here. Rails also singularizes, drops everything up
  to the last `.`, and turns `/` into `::`. In its camelize regex, `^` also
  matches after a newline and `.` does not match a newline. The model is
  therefore faithful for visibility labels without `.`, `/` or newlines that
  singularize to themselves.
- `constantize` is a lookup in a given set of defined class names. The model
  returns the class name.
- The text search is a literal substring match with ASCII case folding. SQL
  `LIKE` also treats `%` and `_` in the text as wildcards. Database `upper()`
  depends on the locale.
- `to_i` is modelled as a parse of leading white space, an optional sign and
  leading decimal digits. Underscores between digits are not modelled.
- `Assets.Gfind` uses the Fixnum range of 64-bit Ruby 1.8 and 1.9. 32-bit
  builds have a narrower range.
- `find_by_id` and `find_by_name` take the first row in store order. A
  database without `ORDER BY` does not define an order.
- Timestamps and date filters are integers. Parsing and quoting dates are not
  modelled.
- The receiver of `gfind` and `filtered_search` is `Asset` itself. Called on
  a single-table-inheritance subclass such as `AssetPublic`, Rails' finders
  also add `type = 'AssetPublic'`; that case is not modelled.
- A nil `resource_content_type` is not modelled. In Ruby it raises
  NoMethodError, and the model's content type is always a string.
