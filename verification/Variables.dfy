/** Paging through the variables of an adapter's reply. */
module Variables {
  import opened Basics

  /** What becomes of the variable list: left alone, a page of it, the JSON value null, or the
      exception of an element access out of range. */
  datatype Page<T> = Whole | Slice(variables: seq<T>) | Null | OutOfRange

  function Given(field: Option<int>): int { if field.Some? then field.value else 0 }

  /** The end of the page: without a count, the end of the list. */
  function PageEnd<T>(all: seq<T>, start: int, count: int): int {
    if count == 0 then |all| else start + count
  }

  /** The page that a request asks for. */
  function PageOf<T>(all: seq<T>, startField: Option<int>, countField: Option<int>): Page<T> {
    var start, count := Given(startField), Given(countField);
    var end := PageEnd(all, start, count);
    if start == 0 && count == 0 then Whole
    else if end <= start then Null
    else if 0 <= start && end <= |all| then Slice(all[start..end])
    else OutOfRange
  }

  /** Without start and count the list is left alone. Otherwise `wanted` variables are asked for, by default all from
      `start` on: none at all makes the list null, one beyond the list is an exception, and else the page has exactly
      these. */
  predicate IsPage<T(==)>(all: seq<T>, start: int, count: int, page: Page<T>) {
    var wanted := if count == 0 then |all| - start else count;
    if start == 0 && count == 0 then page.Whole?
    else if wanted <= 0 then page.Null?
    else if start < 0 || |all| - start < wanted then page.OutOfRange?
    else
      && page.Slice? && |page.variables| == wanted
      && forall i :: 0 <= i < wanted ==> page.variables[i] == all[start + i]
  }

  lemma PageExactly<T>(all: seq<T>, startField: Option<int>, countField: Option<int>)
    ensures var start := if startField.Some? then startField.value else 0;
            var count := if countField.Some? then countField.value else 0;
            IsPage(all, start, count, PageOf(all, startField, countField))
  {}

  /** The page is requested by `start` and `count`, either of which may be absent. The list is copied
      element by element with checked access; a list to which nothing is added stays null. */
  method SelectVariables<T>(all: seq<T>, startField: Option<int>, countField: Option<int>) returns (page: Page<T>)
    ensures page == PageOf(all, startField, countField)
    ensures var start := if startField.Some? then startField.value else 0;
            var count := if countField.Some? then countField.value else 0;
            IsPage(all, start, count, page)
  {
    page := Whole;
    if startField.Some? || countField.Some? {
      var start, count := Given(startField), Given(countField);
      if start != 0 || count != 0 {
        var end := PageEnd(all, start, count);
        page := Null;
        var i := start;
        while i < end
          invariant start <= i && (if start <= end then i <= end else i == start)
          invariant if i == start then page.Null?
                    else 0 <= start < i <= |all| && page == Slice(all[start..i])
          decreases end - i
        {
          if !(0 <= i < |all|) { return OutOfRange; }
          var copied := if page.Slice? then page.variables else [];
          page := Slice(copied + [all[i]]);
          assert 0 <= start && all[start..i] == copied;
          assert all[start..i + 1] == copied + [all[i]];
          i := i + 1;
        }
      }
    }
  }
}
