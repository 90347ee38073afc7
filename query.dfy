/**
  `SphinxSearchQuery.build_query_fragment`: one filter of a Haystack query
  as a fragment of Sphinx's extended query syntax, `@<field> <value>`, with
  `^` before the value for a prefix match and `=` for an exact match.
*/
module Query {
  import opened Wrappers

  datatype FragmentError = UnsupportedFilterType(filterType: string)

  /** The filter types the fragment builder knows. */
  predicate Supported(filterType: string)
  {
    filterType == "contains" || filterType == "startswith" || filterType == "exact"
  }

  /**
    The field selector: `@* ` (every field) for `content`, otherwise `@`
    followed by the field's name in the index, then a space.
  */
  function FieldPrefix(field: string, indexFieldname: string -> string): (p: string)
    ensures |p| >= 2 && p[0] == '@' && p[|p| - 1] == ' '
  {
    if field == "content" then "@* " else "@" + indexFieldname(field) + " "
  }

  /** What comes between the selector and the value: nothing, `^` or `=`. */
  function Marker(filterType: string): string
    requires Supported(filterType)
  {
    if filterType == "contains" then ""
    else if filterType == "startswith" then "^"
    else "="
  }

  /**
    `build_query_fragment(field, filter_type, value)`, with `value` the
    query string of the filter's value and `indexFieldname` the unified
    index's field-name mapping. An unknown filter type has no template, so
    the source fails on it instead of producing a fragment.
  */
  function BuildQueryFragment(field: string, filterType: string, value: string, indexFieldname: string -> string)
    : (r: Result<string, FragmentError>)
    ensures r.Success? <==> Supported(filterType)
    ensures r.Failure? ==> r.error == UnsupportedFilterType(filterType)
    ensures filterType == "contains" ==> r == Success(FieldPrefix(field, indexFieldname) + value)
    ensures filterType == "startswith" ==> r == Success(FieldPrefix(field, indexFieldname) + "^" + value)
    ensures filterType == "exact" ==> r == Success(FieldPrefix(field, indexFieldname) + "=" + value)
  {
    if Supported(filterType) then
      var prefix := FieldPrefix(field, indexFieldname);
      assert prefix + "" + value == prefix + value;
      Success(prefix + Marker(filterType) + value)
    else Failure(UnsupportedFilterType(filterType))
  }

  /** A supported filter gives the selector, the marker and the value, in that order. */
  lemma FragmentShape(field: string, filterType: string, value: string, indexFieldname: string -> string)
    requires Supported(filterType)
    ensures BuildQueryFragment(field, filterType, value, indexFieldname)
            == Success(FieldPrefix(field, indexFieldname) + (Marker(filterType) + value))
  {
    var prefix := FieldPrefix(field, indexFieldname);
    assert prefix + Marker(filterType) + value == prefix + (Marker(filterType) + value);
  }

  /** The text up to the first space, and what follows that space ("" when there is none). */
  function SplitAtSpace(s: string): (r: (string, string))
    ensures ' ' !in r.0
    ensures |r.0| + |r.1| <= |s|
    decreases |s|
  {
    if |s| == 0 then ("", "")
    else if s[0] == ' ' then ("", s[1..])
    else
      var rest := SplitAtSpace(s[1..]);
      ([s[0]] + rest.0, rest.1)
  }

  /** Read a fragment back as Sphinx does: the field after `@`, up to the space, and the rest. */
  function ParseFragment(fragment: string): (r: Option<(string, string)>)
    ensures r.Some? <==> |fragment| > 0 && fragment[0] == '@'
  {
    if |fragment| > 0 && fragment[0] == '@' then Some(SplitAtSpace(fragment[1..])) else None
  }

  lemma {:induction false} SplitAtSpaceAfterName(name: string, rest: string)
    requires ' ' !in name
    ensures SplitAtSpace(name + " " + rest) == (name, rest)
    decreases |name|
  {
    if |name| > 0 {
      assert (name + " " + rest)[1..] == name[1..] + " " + rest;
      SplitAtSpaceAfterName(name[1..], rest);
      assert [name[0]] + name[1..] == name;
    } else {
      assert name + " " + rest == [' '] + rest;
    }
  }

  /**
    A fragment reads back as the field it selects (`*` for content) and
    the value with its marker, whenever the index's field name holds no
    space: the selector and the value cannot run into each other.
  */
  lemma FragmentRoundTrip(field: string, filterType: string, value: string, indexFieldname: string -> string)
    requires Supported(filterType)
    requires field != "content" ==> ' ' !in indexFieldname(field)
    ensures var name := if field == "content" then "*" else indexFieldname(field);
      ParseFragment(BuildQueryFragment(field, filterType, value, indexFieldname).value)
        == Some((name, Marker(filterType) + value))
  {
    var name := if field == "content" then "*" else indexFieldname(field);
    var tail := Marker(filterType) + value;
    FragmentShape(field, filterType, value, indexFieldname);
    var fragment := FieldPrefix(field, indexFieldname) + tail;
    assert FieldPrefix(field, indexFieldname) == "@" + name + " ";
    assert fragment == "@" + (name + " " + tail);
    SplitAtSpaceAfterName(name, tail);
  }
}
