// The include/exclude filter GetTableNames applies to the table names the
// SQL Server catalog returns: keep the names on the include list (when there
// is one), then drop the names on the exclude list (when there is one), both
// compared ignoring case, keeping the catalog's order.

module TableFilter {
  import opened Strings
  import opened Models

  /** `list.Contains(x, StringComparer.OrdinalIgnoreCase)`. */
  predicate ContainsIgnoreCase(list: seq<string>, x: string)
  {
    exists i :: 0 <= i < |list| && EqualsIgnoreCase(list[i], x)
  }

  /**
    * `names.Where(x => list.Contains(x, OrdinalIgnoreCase) == listed)`: the
    * names that are on the list (listed) or off it (not listed), in order.
    */
  function FilterBy(names: seq<string>, list: seq<string>, listed: bool): (r: seq<string>)
    ensures forall x :: x in r <==> x in names && ContainsIgnoreCase(list, x) == listed
    decreases |names|
  {
    if |names| == 0 then []
    else
      var rest := FilterBy(names[1..], list, listed);
      assert forall x :: x in names <==> x == names[0] || x in names[1..] by {
        assert names == [names[0]] + names[1..];
      }
      if ContainsIgnoreCase(list, names[0]) == listed then [names[0]] + rest else rest
  }

  /** A configured list; a missing one (null) counts as empty. */
  function OrEmpty(list: Option<seq<string>>): seq<string>
  {
    if list.None? then [] else list.value
  }

  /** The filter of GetTableNames over the names the catalog query returned. */
  function FilterTableNames(names: seq<string>, includeTables: Option<seq<string>>, excludeTables: Option<seq<string>>)
    : seq<string>
  {
    var includes := OrEmpty(includeTables);
    var excludes := OrEmpty(excludeTables);
    var included := if |includes| > 0 then FilterBy(names, includes, true) else names;
    if |excludes| > 0 then FilterBy(included, excludes, false) else included
  }

  // ---------------------------------------------------------------------------
  // Order

  /** `sub` is `s` with some elements left out and the rest kept in order. */
  predicate IsSubsequence(sub: seq<string>, s: seq<string>)
    decreases |s|
  {
    if |sub| == 0 then true
    else if |s| == 0 then false
    else (sub[0] == s[0] && IsSubsequence(sub[1..], s[1..])) || IsSubsequence(sub, s[1..])
  }

  lemma {:induction false} SubsequenceTransitive(a: seq<string>, b: seq<string>, c: seq<string>)
    requires IsSubsequence(a, b) && IsSubsequence(b, c)
    ensures IsSubsequence(a, c)
    decreases |c|
  {
    if |a| > 0 {
      if b[0] == c[0] && IsSubsequence(b[1..], c[1..]) {
        if a[0] == b[0] && IsSubsequence(a[1..], b[1..]) {
          SubsequenceTransitive(a[1..], b[1..], c[1..]);
        } else {
          SubsequenceTransitive(a, b[1..], c[1..]);
        }
      } else {
        SubsequenceTransitive(a, b, c[1..]);
      }
    }
  }

  lemma {:induction false} SubsequenceOfItself(s: seq<string>)
    ensures IsSubsequence(s, s)
    decreases |s|
  {
    if |s| > 0 {
      SubsequenceOfItself(s[1..]);
    }
  }

  /** FilterBy keeps the order of the names it keeps. */
  lemma {:induction false} FilterByIsSubsequence(names: seq<string>, list: seq<string>, listed: bool)
    ensures IsSubsequence(FilterBy(names, list, listed), names)
    decreases |names|
  {
    if |names| > 0 {
      var rest := FilterBy(names[1..], list, listed);
      FilterByIsSubsequence(names[1..], list, listed);
      if ContainsIgnoreCase(list, names[0]) == listed {
        assert ([names[0]] + rest)[1..] == rest;
      } else if |rest| > 0 {
        assert IsSubsequence(rest, names[1..]);
      }
    }
  }

  /** The result is the catalog's names with some left out, in the catalog's order. */
  lemma FilterTableNamesIsSubsequence(names: seq<string>, includeTables: Option<seq<string>>, excludeTables: Option<seq<string>>)
    ensures IsSubsequence(FilterTableNames(names, includeTables, excludeTables), names)
  {
    var includes, excludes := OrEmpty(includeTables), OrEmpty(excludeTables);
    var included := if |includes| > 0 then FilterBy(names, includes, true) else names;
    if |includes| > 0 {
      FilterByIsSubsequence(names, includes, true);
    } else {
      SubsequenceOfItself(names);
    }
    if |excludes| > 0 {
      FilterByIsSubsequence(included, excludes, false);
      SubsequenceTransitive(FilterBy(included, excludes, false), included, names);
    }
  }

  // ---------------------------------------------------------------------------
  // Membership

  /**
    * A name survives exactly when the catalog returned it, it is on the
    * include list or that list is empty or null, and it is not on a non-empty
    * exclude list; a name on both lists is dropped. All comparisons ignore case.
    */
  lemma FilterTableNamesMembership(names: seq<string>, includeTables: Option<seq<string>>,
                                   excludeTables: Option<seq<string>>, x: string)
    ensures x in FilterTableNames(names, includeTables, excludeTables)
        <==> && x in names
             && (|OrEmpty(includeTables)| == 0 || ContainsIgnoreCase(OrEmpty(includeTables), x))
             && !ContainsIgnoreCase(OrEmpty(excludeTables), x)
  {
  }

  /** With no include list and no exclude list (empty or null) the names come back unchanged. */
  lemma FilterTableNamesNoLists(names: seq<string>, includeTables: Option<seq<string>>, excludeTables: Option<seq<string>>)
    requires |OrEmpty(includeTables)| == 0 && |OrEmpty(excludeTables)| == 0
    ensures FilterTableNames(names, includeTables, excludeTables) == names
  {
  }

  /** FilterBy leaves alone names that all pass it. */
  lemma {:induction false} FilterByKeepsPassing(names: seq<string>, list: seq<string>, listed: bool)
    requires forall i :: 0 <= i < |names| ==> ContainsIgnoreCase(list, names[i]) == listed
    ensures FilterBy(names, list, listed) == names
    decreases |names|
  {
    if |names| > 0 {
      FilterByKeepsPassing(names[1..], list, listed);
      assert [names[0]] + names[1..] == names;
    }
  }

  /** Filtering the filter's own result again changes nothing. */
  lemma FilterTableNamesIdempotent(names: seq<string>, includeTables: Option<seq<string>>, excludeTables: Option<seq<string>>)
    ensures var once := FilterTableNames(names, includeTables, excludeTables);
      FilterTableNames(once, includeTables, excludeTables) == once
  {
    var once := FilterTableNames(names, includeTables, excludeTables);
    var includes, excludes := OrEmpty(includeTables), OrEmpty(excludeTables);
    forall i | 0 <= i < |once|
      ensures (|includes| == 0 || ContainsIgnoreCase(includes, once[i])) && !ContainsIgnoreCase(excludes, once[i])
    {
      FilterTableNamesMembership(names, includeTables, excludeTables, once[i]);
    }
    if |includes| > 0 {
      FilterByKeepsPassing(once, includes, true);
    }
    if |excludes| > 0 {
      var included := if |includes| > 0 then FilterBy(once, includes, true) else once;
      FilterByKeepsPassing(included, excludes, false);
    }
  }

  /**
    * Case does not matter: with the include list ["USERS"], the catalog's
    * "users" is kept and "Orders" is not.
    */
  lemma IncludeIgnoresCaseExample()
    ensures FilterTableNames(["users", "Orders"], Some(["USERS"]), None) == ["users"]
  {
    assert ToLower("USERS") == ToLower("users") == "users";
    assert EqualsIgnoreCase(["USERS"][0], "users");
    assert ContainsIgnoreCase(["USERS"], "users");
    assert |ToLower("Orders")| != |ToLower("USERS")|;
    assert !ContainsIgnoreCase(["USERS"], "Orders");
    assert ["users", "Orders"][1..] == ["Orders"];
  }
}
