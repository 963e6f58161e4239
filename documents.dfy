/** The document record as the list view sees it, the filter criteria, and
    the per-row tests behind the view's three filters: the free-text search,
    the status match and the role match through the fixed role table. */
module Documents {

  datatype Option<T> = None | Some(value: T)

  /** One row of the documents table. `values` is the string form of every own
      field value of the record, in property order (what `Object.values(row)`
      passed through `String` gives); the name search reads nothing else.
      `permissions` is `None` when the record has no permissions list. */
  datatype Document = Document(
    id: int,
    status: string,
    permissions: Option<seq<string>>,
    propertyTypeId: int,
    documentTypeId: int,
    values: seq<string>)

  /** The filter criteria: free text, selected role labels, selected status. */
  datatype Filters = Filters(name: string, role: seq<string>, status: string)

  /** The status filter value that keeps every row. */
  const AllStatuses: string := "all"

  /** The only status whose rows can be selected for processing. */
  const Received: string := "Received"

  /** `defaultFilters`: empty text, no roles, every status. */
  const DefaultFilters: Filters := Filters("", [], AllStatuses)

  /** `roleMapping`: permission code to role label. */
  const RoleMapping: map<string, string> :=
    map["production_head" := "Production Head", "initiator" := "Initiator", "validator" := "Validator"]

  // ---------------------------------------------------------------------
  // Case-insensitive substring search.

  /** `toLowerCase` on one character, for the ASCII letters. */
  function LowerChar(c: char): char {
    if 'A' <= c <= 'Z' then (c as int + 32) as char else c
  }

  function Lower(s: string): string {
    seq(|s|, k requires 0 <= k < |s| => LowerChar(s[k]))
  }

  /** `needle` occurs in `hay` at index `i`. */
  predicate OccursAt(hay: string, needle: string, i: nat) {
    i + |needle| <= |hay| && hay[i..i + |needle|] == needle
  }

  /** `hay.includes(needle)`: compare at index 0, then search the rest. */
  function Includes(hay: string, needle: string): bool
    decreases |hay|
  {
    if |needle| > |hay| then false
    else if hay[..|needle|] == needle then true
    else Includes(hay[1..], needle)
  }

  lemma OccursAtShift(hay: string, needle: string, i: nat)
    requires |hay| > 0
    ensures OccursAt(hay[1..], needle, i) <==> OccursAt(hay, needle, i + 1)
  {
    if i + 1 + |needle| <= |hay| {
      assert hay[1..][i..i + |needle|] == hay[i + 1..i + 1 + |needle|];
    }
  }

  /** `Includes` finds an occurrence exactly when there is one. */
  lemma {:induction false} IncludesFindsOccurrence(hay: string, needle: string)
    ensures Includes(hay, needle) <==> exists i: nat :: OccursAt(hay, needle, i)
    decreases |hay|
  {
    if |needle| > |hay| {
      assert forall i: nat :: !OccursAt(hay, needle, i);
    } else if hay[..|needle|] == needle {
      assert OccursAt(hay, needle, 0);
    } else {
      IncludesFindsOccurrence(hay[1..], needle);
      if Includes(hay[1..], needle) {
        var i: nat :| OccursAt(hay[1..], needle, i);
        OccursAtShift(hay, needle, i);
      }
      forall i: nat | OccursAt(hay, needle, i)
        ensures Includes(hay[1..], needle)
      {
        assert i != 0;
        OccursAtShift(hay, needle, i - 1);
      }
    }
  }

  /** Some field value, lower-cased, contains `needle`. */
  function AnyValueIncludes(values: seq<string>, needle: string): (b: bool)
    ensures b <==> exists k :: 0 <= k < |values| && Includes(Lower(values[k]), needle)
  {
    if values == [] then false
    else
      assert forall k :: 0 < k < |values| ==> values[k] == values[1..][k - 1];
      Includes(Lower(values[0]), needle) || AnyValueIncludes(values[1..], needle)
  }

  /** The name filter's test: some field contains `name`, ignoring case. */
  predicate NameMatches(d: Document, name: string) {
    AnyValueIncludes(d.values, Lower(name))
  }

  /** Lower-casing commutes with taking a slice. */
  lemma LowerSlice(s: string, i: nat, j: nat)
    requires i <= j <= |s|
    ensures Lower(s)[i..j] == Lower(s[i..j])
  {
  }

  /** A field that contains the text verbatim passes the name test. */
  lemma VerbatimOccurrenceMatches(d: Document, name: string, k: nat, i: nat)
    requires k < |d.values| && OccursAt(d.values[k], name, i)
    ensures NameMatches(d, name)
  {
    LowerSlice(d.values[k], i, i + |name|);
    assert OccursAt(Lower(d.values[k]), Lower(name), i);
    IncludesFindsOccurrence(Lower(d.values[k]), Lower(name));
  }

  /** The name test holds exactly when some field, lower-cased, contains the
      lower-cased text. */
  lemma NameMatchesIff(d: Document, name: string)
    ensures NameMatches(d, name) <==>
      exists k: nat, i: nat :: k < |d.values| && OccursAt(Lower(d.values[k]), Lower(name), i)
  {
    forall k | 0 <= k < |d.values|
      ensures Includes(Lower(d.values[k]), Lower(name)) <==> exists i: nat :: OccursAt(Lower(d.values[k]), Lower(name), i)
    {
      IncludesFindsOccurrence(Lower(d.values[k]), Lower(name));
    }
  }

  // ---------------------------------------------------------------------
  // The role filter.

  /** `roleMapping[code]` for the three codes the table knows; any other code
      maps to nothing that can be a selected role label. */
  function MappedRole(code: string): Option<string> {
    if code in RoleMapping then Some(RoleMapping[code]) else None
  }

  /** Some permission code is known to the role table and its label is one
      of the selected roles. */
  function AnyCodeSelected(codes: seq<string>, role: seq<string>): (b: bool)
    ensures b <==> exists k :: 0 <= k < |codes| && codes[k] in RoleMapping && RoleMapping[codes[k]] in role
  {
    if codes == [] then false
    else
      assert forall k :: 0 < k < |codes| ==> codes[k] == codes[1..][k - 1];
      var mapped := MappedRole(codes[0]);
      (mapped.Some? && mapped.value in role) || AnyCodeSelected(codes[1..], role)
  }

  /** The role filter's test: the row has a permissions list and one of its
      codes maps to a selected label. */
  predicate RoleMatches(d: Document, role: seq<string>) {
    d.permissions.Some? && AnyCodeSelected(d.permissions.value, role)
  }

  /** Rows without permissions, or whose codes are all unknown to the role
      table, never pass the role test. */
  lemma UnmappedRowsFailRoleTest(d: Document, role: seq<string>)
    requires d.permissions.None? || forall code :: code in d.permissions.value ==> code !in RoleMapping
    ensures !RoleMatches(d, role)
  {
    if d.permissions.Some? {
      var codes := d.permissions.value;
      assert forall k :: 0 <= k < |codes| ==> codes[k] in codes;
    }
  }

  /** Only the three labels of the role table can make a row pass: a role list
      that holds none of them keeps no row. */
  lemma RoleTestNeedsKnownLabel(d: Document, role: seq<string>)
    requires RoleMatches(d, role)
    ensures exists roleLabel :: roleLabel in role && roleLabel in RoleMapping.Values
  {
    var codes := d.permissions.value;
    var k :| 0 <= k < |codes| && codes[k] in RoleMapping && RoleMapping[codes[k]] in role;
    assert RoleMapping[codes[k]] in RoleMapping.Values;
  }
}
