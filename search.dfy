/** `Asset.filtered_search`: up to five optional conditions, each wrapped in
    its own `with_scope`, nested around `Asset.find(:all)`. Query execution is
    modelled as filtering an in-memory sequence of rows, keeping their order. */
module Search {

  import opened Wrappers
  import opened RubyText
  import opened Assets

  /** The `filters` hash. `typeIds` is the `:type` value as text; the two
      dates are timestamps as numbers. */
  datatype Filters = Filters(
    typeIds: Option<string>,
    text: Option<string>,
    visibility: Option<string>,
    createdStart: Option<int>,
    createdEnd: Option<int>)

  const NoFilters: Filters := Filters(None, None, None, None, None)

  /** One SQL condition of a scope. */
  datatype Condition =
    | TypeIn(ids: seq<int>)                 // assets.asset_type_id IN (?)
    | NameOrDescriptionLike(text: string)   // upper(name) LIKE upper('%t%') OR upper(description) LIKE ...
    | TypeNameIs(name: string)              // assets.type = ?
    | CreatedFrom(start: int)               // assets.created_at >= ?
    | CreatedUntil(end: int)                // assets.created_at <= ?

  /** A scope hash: `{}` (None) or `{:find => {:conditions => ...}}`. */
  type Scope = Option<Condition>

  /** What a row must satisfy for the condition to be true. A NULL description
      makes its LIKE false. */
  predicate Holds(c: Condition, a: Asset) {
    match c
    case TypeIn(ids) => a.assetTypeId in ids
    case NameOrDescriptionLike(t) =>
      ContainsIgnoringCase(a.name, t) || (a.description.Some? && ContainsIgnoringCase(a.description.value, t))
    case TypeNameIs(name) => a.typeName == name
    case CreatedFrom(start) => a.createdAt >= start
    case CreatedUntil(end) => a.createdAt <= end
  }

  predicate Admits(scope: Scope, a: Asset) {
    scope.None? || Holds(scope.value, a)
  }

  // ---------------------------------------------------------------------------
  // Building the scopes
  // ---------------------------------------------------------------------------

  function ToIs(fields: seq<string>): (ids: seq<int>)
    ensures |ids| == |fields|
  {
    if |fields| == 0 then [] else [ToI(fields[0])] + ToIs(fields[1..])
  }

  /** `filters[:type].to_s.split(",").map(&:to_i)`. */
  function ParseIds(s: string): (ids: seq<int>) {
    ToIs(Split(s, ','))
  }

  function Decimals(ids: seq<nat>): (texts: seq<string>)
    ensures |texts| == |ids|
    ensures forall t :: t in texts ==> t != [] && ',' !in t
  {
    if |ids| == 0 then []
    else
      var d := Decimal(ids[0]);
      assert ',' !in d by { assert forall i :: 0 <= i < |d| ==> IsDigit(d[i]); }
      [d] + Decimals(ids[1..])
  }

  /** How a caller writes a list of ids for the `:type` filter, e.g. `"3,5"`. */
  function IdList(ids: seq<nat>): string {
    Join(Decimals(ids), ',')
  }

  function TypeScope(f: Filters): Scope {
    if f.typeIds.Some? then Some(TypeIn(ParseIds(f.typeIds.value))) else None
  }

  function TextScope(f: Filters): Scope {
    if BlankOpt(f.text) then None else Some(NameOrDescriptionLike(f.text.value))
  }

  function VisibilityScope(f: Filters): Scope {
    if BlankOpt(f.visibility) then None else Some(TypeNameIs(VisibilityName(f.visibility.value)))
  }

  function CreatedStartScope(f: Filters): Scope {
    if f.createdStart.Some? then Some(CreatedFrom(f.createdStart.value)) else None
  }

  function CreatedEndScope(f: Filters): Scope {
    if f.createdEnd.Some? then Some(CreatedUntil(f.createdEnd.value)) else None
  }

  /** The scopes in the source's nesting order, outermost first. */
  function Scopes(f: Filters): seq<Scope> {
    [TextScope(f), TypeScope(f), VisibilityScope(f), CreatedStartScope(f), CreatedEndScope(f)]
  }

  // ---------------------------------------------------------------------------
  // Running the nested scopes
  // ---------------------------------------------------------------------------

  /** The rows an inner query returns, restricted by one more scope. */
  function WithScope(scope: Scope, rows: seq<Asset>): (r: seq<Asset>)
    ensures |r| <= |rows|
    ensures forall a :: a in r <==> a in rows && Admits(scope, a)
  {
    if |rows| == 0 then []
    else (if Admits(scope, rows[0]) then [rows[0]] else []) + WithScope(scope, rows[1..])
  }

  /** `with_scope(s0) do with_scope(s1) do ... find(:all) end end`. */
  function Nest(rows: seq<Asset>, scopes: seq<Scope>): (r: seq<Asset>) {
    if |scopes| == 0 then rows else WithScope(scopes[0], Nest(rows, scopes[1..]))
  }

  /** `Asset.filtered_search(filters)`; the plugin hook around it passes the
      search through. */
  function FilteredSearch(store: seq<Asset>, f: Filters): (r: seq<Asset>) {
    Nest(store, Scopes(f))
  }

  // ---------------------------------------------------------------------------
  // The reference reading: one pass, all conditions at once
  // ---------------------------------------------------------------------------

  predicate AdmitsAll(scopes: seq<Scope>, a: Asset) {
    forall s :: s in scopes ==> Admits(s, a)
  }

  /** The rows, in order, that satisfy the conjunction of all the scopes. */
  function Select(rows: seq<Asset>, scopes: seq<Scope>): (r: seq<Asset>)
    ensures |r| <= |rows|
    ensures forall a :: a in r <==> a in rows && AdmitsAll(scopes, a)
  {
    if |rows| == 0 then []
    else (if AdmitsAll(scopes, rows[0]) then [rows[0]] else []) + Select(rows[1..], scopes)
  }

  /** Field-by-field reading of the filters, each absent or blank one imposing nothing. */
  predicate Matches(f: Filters, a: Asset) {
    && (f.typeIds.Some? ==> a.assetTypeId in ParseIds(f.typeIds.value))
    && (!BlankOpt(f.text) ==>
          ContainsIgnoringCase(a.name, f.text.value) ||
          (a.description.Some? && ContainsIgnoringCase(a.description.value, f.text.value)))
    && (!BlankOpt(f.visibility) ==> a.typeName == VisibilityName(f.visibility.value))
    && (f.createdStart.Some? ==> f.createdStart.value <= a.createdAt)
    && (f.createdEnd.Some? ==> a.createdAt <= f.createdEnd.value)
  }

  // ---------------------------------------------------------------------------
  // Lemmas
  // ---------------------------------------------------------------------------

  lemma {:induction false} SelectAll(rows: seq<Asset>, scopes: seq<Scope>)
    requires forall a :: a in rows ==> AdmitsAll(scopes, a)
    ensures Select(rows, scopes) == rows
  {
    if |rows| > 0 {
      assert rows[0] in rows;
      assert forall a :: a in rows[1..] ==> a in rows;
      SelectAll(rows[1..], scopes);
    }
  }

  /** One more scope around a conjunction is the conjunction with that scope added. */
  lemma {:induction false} WithScopeSelect(scope: Scope, rows: seq<Asset>, scopes: seq<Scope>)
    ensures WithScope(scope, Select(rows, scopes)) == Select(rows, [scope] + scopes)
  {
    var all := [scope] + scopes;
    assert forall a :: AdmitsAll(all, a) <==> Admits(scope, a) && AdmitsAll(scopes, a) by {
      assert forall s :: s in all <==> s == scope || s in scopes;
    }
    if |rows| > 0 {
      WithScopeSelect(scope, rows[1..], scopes);
      var tail := Select(rows[1..], scopes);
      if AdmitsAll(scopes, rows[0]) {
        assert Select(rows, scopes) == [rows[0]] + tail;
        assert ([rows[0]] + tail)[1..] == tail;
      } else {
        assert Select(rows, scopes) == tail;
      }
    }
  }

  /** The nested scopes are exactly the conjunction of their conditions. */
  lemma {:induction false} NestIsConjunction(rows: seq<Asset>, scopes: seq<Scope>)
    ensures Nest(rows, scopes) == Select(rows, scopes)
  {
    if |scopes| == 0 {
      SelectAll(rows, scopes);
    } else {
      NestIsConjunction(rows, scopes[1..]);
      WithScopeSelect(scopes[0], rows, scopes[1..]);
      assert [scopes[0]] + scopes[1..] == scopes;
    }
  }

  /** Selections by equivalent conjunctions are equal, order included. */
  lemma {:induction false} SelectCongruent(rows: seq<Asset>, s1: seq<Scope>, s2: seq<Scope>)
    requires forall a :: a in rows ==> (AdmitsAll(s1, a) <==> AdmitsAll(s2, a))
    ensures Select(rows, s1) == Select(rows, s2)
  {
    if |rows| > 0 {
      assert rows[0] in rows;
      assert forall a :: a in rows[1..] ==> a in rows;
      SelectCongruent(rows[1..], s1, s2);
    }
  }

  /** Filtering a superset with a stronger conjunction gives the same rows. */
  lemma {:induction false} SelectStronger(rows: seq<Asset>, weak: seq<Scope>, strong: seq<Scope>)
    requires forall a :: AdmitsAll(strong, a) ==> AdmitsAll(weak, a)
    ensures Select(Select(rows, weak), strong) == Select(rows, strong)
  {
    if |rows| > 0 {
      SelectStronger(rows[1..], weak, strong);
      var tail := Select(rows[1..], weak);
      if AdmitsAll(weak, rows[0]) {
        assert Select(rows, weak) == [rows[0]] + tail;
        assert ([rows[0]] + tail)[1..] == tail;
      } else {
        assert Select(rows, weak) == tail;
        assert Select(rows, strong) == Select(rows[1..], strong);
      }
    }
  }

  /** Re-nesting the scopes in any order gives the same rows. */
  lemma NestOrderIrrelevant(rows: seq<Asset>, s1: seq<Scope>, s2: seq<Scope>)
    requires multiset(s1) == multiset(s2)
    ensures Nest(rows, s1) == Nest(rows, s2)
  {
    NestIsConjunction(rows, s1);
    NestIsConjunction(rows, s2);
    assert forall s :: s in s1 <==> s in s2 by {
      assert forall s :: s in s1 <==> s in multiset(s1);
      assert forall s :: s in s2 <==> s in multiset(s2);
    }
    SelectCongruent(rows, s1, s2);
  }

  lemma ScopesAdmitIffMatches(f: Filters, a: Asset)
    ensures AdmitsAll(Scopes(f), a) <==> Matches(f, a)
  {
    var ss := Scopes(f);
    assert forall s :: s in ss <==> s == ss[0] || s == ss[1] || s == ss[2] || s == ss[3] || s == ss[4];
    assert AdmitsAll(ss, a) <==>
      Admits(ss[0], a) && Admits(ss[1], a) && Admits(ss[2], a) && Admits(ss[3], a) && Admits(ss[4], a);
  }

  /** `filtered_search` returns, in store order, the rows that satisfy every
      given filter: the composed scopes mean what each filter says on its own. */
  lemma FilteredSearchSpec(store: seq<Asset>, f: Filters)
    ensures FilteredSearch(store, f) == Select(store, Scopes(f))
    ensures forall a :: a in FilteredSearch(store, f) <==> a in store && Matches(f, a)
  {
    NestIsConjunction(store, Scopes(f));
    forall a | a in store ensures AdmitsAll(Scopes(f), a) <==> Matches(f, a) {
      ScopesAdmitIffMatches(f, a);
    }
  }

  /** Absent type and date filters and blank text and visibility filters add
      no condition: with none of them every asset comes back, in order. */
  lemma Unfiltered(store: seq<Asset>, f: Filters)
    requires f.typeIds.None? && BlankOpt(f.text) && BlankOpt(f.visibility)
    requires f.createdStart.None? && f.createdEnd.None?
    ensures FilteredSearch(store, f) == store
  {
    NestIsConjunction(store, Scopes(f));
    var ss := Scopes(f);
    assert forall s :: s in ss ==> s == None;
    SelectAll(store, ss);
  }

  /** `f2` keeps every filter `f1` sets (and may set more). */
  predicate Narrower(f2: Filters, f1: Filters) {
    && (f1.typeIds.Some? ==> f2.typeIds == f1.typeIds)
    && (!BlankOpt(f1.text) ==> f2.text == f1.text)
    && (!BlankOpt(f1.visibility) ==> f2.visibility == f1.visibility)
    && (f1.createdStart.Some? ==> f2.createdStart == f1.createdStart)
    && (f1.createdEnd.Some? ==> f2.createdEnd == f1.createdEnd)
  }

  /** Adding filters never enlarges the result: the narrower search is the
      wider one's result filtered again, so a subsequence of it. */
  lemma AddingFiltersNarrows(store: seq<Asset>, f1: Filters, f2: Filters)
    requires Narrower(f2, f1)
    ensures FilteredSearch(store, f2) == Select(FilteredSearch(store, f1), Scopes(f2))
    ensures forall a :: a in FilteredSearch(store, f2) ==> a in FilteredSearch(store, f1)
  {
    NestIsConjunction(store, Scopes(f1));
    NestIsConjunction(store, Scopes(f2));
    forall a | AdmitsAll(Scopes(f2), a) ensures AdmitsAll(Scopes(f1), a) {
      ScopesAdmitIffMatches(f1, a);
      ScopesAdmitIffMatches(f2, a);
    }
    SelectStronger(store, Scopes(f1), Scopes(f2));
  }

  /** Nesting the five scopes in any other order returns the same rows. */
  lemma ScopeOrderIrrelevant(store: seq<Asset>, f: Filters, order: seq<Scope>)
    requires multiset(order) == multiset(Scopes(f))
    ensures Nest(store, order) == FilteredSearch(store, f)
  {
    NestOrderIrrelevant(store, order, Scopes(f));
  }

  /** The text filter ignores case: searching for the upper-cased text gives
      the same rows. */
  lemma TextFilterIgnoresCase(store: seq<Asset>, f: Filters, t: string)
    ensures FilteredSearch(store, f.(text := Some(Upcase(t)))) == FilteredSearch(store, f.(text := Some(t)))
  {
    var fu, ft := f.(text := Some(Upcase(t))), f.(text := Some(t));
    assert Blank(Upcase(t)) <==> Blank(t) by {
      assert forall i :: 0 <= i < |t| ==> (IsSpace(UpcaseChar(t[i])) <==> IsSpace(t[i]));
    }
    UpcaseForgetsCase(t);
    FilteredSearchSpec(store, fu);
    FilteredSearchSpec(store, ft);
    forall a | a in store ensures AdmitsAll(Scopes(fu), a) <==> AdmitsAll(Scopes(ft), a) {
      ScopesAdmitIffMatches(fu, a);
      ScopesAdmitIffMatches(ft, a);
    }
    SelectCongruent(store, Scopes(fu), Scopes(ft));
  }

  lemma {:induction false} ToIsDecimals(ids: seq<nat>)
    ensures ToIs(Decimals(ids)) == ids
  {
    if |ids| > 0 {
      ToIsDecimals(ids[1..]);
      ToIDecimal(ids[0]);
    }
  }

  /** The `:type` list is read back exactly: `"3,5"` gives `[3, 5]`. */
  lemma ParseIdList(ids: seq<nat>)
    ensures ParseIds(IdList(ids)) == ids
  {
    SplitJoin(Decimals(ids), ',');
    ToIsDecimals(ids);
  }

  lemma ParseIdsExample()
    ensures ParseIds("3,5") == [3, 5]
  {
    assert Decimals([3, 5]) == ["3", "5"];
    assert IdList([3, 5]) == "3,5";
    ParseIdList([3, 5]);
  }

  /** The type filter keeps exactly the assets whose type id is listed. */
  lemma TypeFilterKeepsListed(store: seq<Asset>, ids: seq<nat>, a: Asset)
    ensures a in FilteredSearch(store, NoFilters.(typeIds := Some(IdList(ids)))) <==>
      a in store && a.assetTypeId in ids
  {
    FilteredSearchSpec(store, NoFilters.(typeIds := Some(IdList(ids))));
    ParseIdList(ids);
  }

  /** `created_start` and `created_end` are both inclusive. */
  lemma DateBoundsInclusive(store: seq<Asset>, a: Asset)
    requires a in store
    ensures a in FilteredSearch(store, NoFilters.(createdStart := Some(a.createdAt), createdEnd := Some(a.createdAt)))
  {
    FilteredSearchSpec(store, NoFilters.(createdStart := Some(a.createdAt), createdEnd := Some(a.createdAt)));
  }

  /** The visibility filter selects the subclass `visibilize` names, but it
      only camelizes: an undefined subclass name matches no row rather than
      raising. */
  lemma VisibilityFilterAgreesWithVisibilize(store: seq<Asset>, v: string, defined: set<string>, a: Asset)
    requires !Blank(v)
    ensures a in FilteredSearch(store, NoFilters.(visibility := Some(v))) <==>
      a in store && a.typeName == VisibilityName(v)
    ensures Visibilize(v, defined).Success? ==>
      (a in FilteredSearch(store, NoFilters.(visibility := Some(v))) <==>
       a in store && a.typeName == Visibilize(v, defined).value)
  {
    FilteredSearchSpec(store, NoFilters.(visibility := Some(v)));
  }
}
