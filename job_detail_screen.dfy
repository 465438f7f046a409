/**
 * The job detail page of `screens/JobDetailScreen.js`: how a job's
 * `content` is turned into display text, and the bookmark button's handler.
 *
 * `JSON.parse` is not modelled: its outcome on the content is an input,
 * either "threw" or the parsed value, with an object's entries given in
 * `Object.keys` order.
 */
module JobDetailScreen {
  import opened Wrappers
  import opened Jobs
  import opened JsStrings
  import Seqs
  import Db

  const NoDescription := "No description available"

  /** A value `JSON.parse` can produce; only a number's truthiness matters here. */
  datatype Json =
    | JNull
    | JBool(b: bool)
    | JNumber(n: real)
    | JString(s: string)
    | JArray(items: seq<Json>)
    | JObject(fields: seq<(string, Json)>)

  /** `JSON.parse(text)` threw, or gave a value. */
  datatype ParseResult = NotJson | Parsed(value: Json)

  /** JavaScript truthiness of a parsed value: `null`, `false`, `0` and `""` are falsy. */
  predicate IsTruthyJson(v: Json) {
    match v
    case JNull => false
    case JBool(b) => b
    case JNumber(n) => n != 0.0
    case JString(s) => s != ""
    case _ => true
  }

  /** `typeof v === 'object'`: true of `null`, arrays and objects. */
  predicate IsObjectType(v: Json) {
    v.JNull? || v.JArray? || v.JObject?
  }

  /** The values visited by `Object.keys(v).forEach(key => ... v[key] ...)`; an array's keys are its indices. */
  function EntryValues(v: Json): seq<Json>
    requires v.JArray? || v.JObject?
  {
    if v.JArray? then v.items
    else seq(|v.fields|, i requires 0 <= i < |v.fields| => v.fields[i].1)
  }

  /**
   * The cleaning chain: every backslash-n becomes a newline, every
   * backslash-u becomes `u`, every double quote is deleted, and the result
   * is trimmed. What comes out has no double quote and no whitespace at
   * either end.
   */
  function Clean(s: string): (r: string)
    ensures '"' !in r
    ensures IsTrimmed(r)
  {
    var unquoted := DeleteChar(ReplacePair(ReplacePair(s, '\\', 'n', '\n'), '\\', 'u', 'u'), '"');
    TrimDropsOnlyWhitespace(unquoted);
    Trim(unquoted)
  }

  /** What the `forEach` makes of one value: a truthy string's cleaning, and "" for anything else. */
  function CleanedValue(v: Json): string {
    if IsTruthyJson(v) && v.JString? then Clean(v.s) else ""
  }

  /** The cleaned value of each visited value, in key order. */
  function CleanedValues(values: seq<Json>): seq<string> {
    seq(|values|, k requires 0 <= k < |values| => CleanedValue(values[k]))
  }

  /** A block is kept only when its cleaning is not empty. */
  predicate NonEmpty(b: string) {
    b != ""
  }

  /**
   * One step of the `forEach`: a falsy value is skipped; a truthy string is
   * cleaned and kept when the cleaning is not empty; any other truthy value
   * has no `replace`, so the call throws (`None`).
   */
  function Visit(blocks: seq<string>, v: Json): (r: Option<seq<string>>)
    ensures r.None? <==> IsTruthyJson(v) && !v.JString?
    ensures r.Some? ==> |blocks| <= |r.value| <= |blocks| + 1 && r.value[..|blocks|] == blocks
    ensures r.Some? ==> (|r.value| == |blocks| + 1 <==> CleanedValue(v) != "")
    ensures r.Some? && |r.value| == |blocks| + 1 ==> r.value[|blocks|] == CleanedValue(v)
  {
    if !IsTruthyJson(v) then Some(blocks)
    else if !v.JString? then None
    else
      var cleanText := Clean(v.s);
      Some(if cleanText != "" then blocks + [cleanText] else blocks)
  }

  /** The `blocks` array after the `forEach` has visited `values` in order; `None` once it has thrown. */
  function Blocks(values: seq<Json>): (r: Option<seq<string>>)
    ensures r.Some? ==> |r.value| <= |values|
    decreases |values|
  {
    if values == [] then Some([])
    else
      match Blocks(values[..|values| - 1])
      case None => None
      case Some(blocks) => Visit(blocks, values[|values| - 1])
  }

  /** `formatDescription(text)` when `JSON.parse(text)` goes as `parsed` says. */
  function Formatted(text: Option<string>, parsed: ParseResult): (r: string)
    ensures r == NoDescription || (text.Some? && r == text.value) || '"' !in r
  {
    if text.None? || text.value == "" then NoDescription
    else
      var raw := text.value;
      match parsed
      case NotJson => Clean(raw)
      case Parsed(v) =>
        if !IsObjectType(v) then raw
        else if v.JNull? then Clean(raw)  // Object.keys(null) throws
        else
          match Blocks(EntryValues(v))
          case Some(blocks) =>
            BlocksAreClean(EntryValues(v));
            JoinExcludes(blocks, "\n\n", '"');
            Join(blocks, "\n\n")
          case None => Clean(raw)
  }

  /** Once the `forEach` has thrown, visiting more values does not undo it. */
  lemma {:induction false} BlocksStayFailed(values: seq<Json>, n: nat)
    requires n <= |values| && Blocks(values[..n]) == None
    ensures Blocks(values) == None
    decreases |values| - n
  {
    if n < |values| {
      assert values[..n + 1][..n] == values[..n];
      BlocksStayFailed(values, n + 1);
    } else {
      assert values[..n] == values;
    }
  }

  method FormatDescription(text: Option<string>, parsed: ParseResult) returns (r: string)
    ensures r == Formatted(text, parsed)
  {
    if text.None? || text.value == "" {
      return NoDescription;
    }
    var raw := text.value;
    match parsed {
      case NotJson =>
        return Clean(raw);
      case Parsed(v) =>
        if !IsObjectType(v) {
          return raw;
        }
        if v.JNull? {
          return Clean(raw);
        }
        var values := EntryValues(v);
        var blocks: seq<string> := [];
        var i := 0;
        while i < |values|
          invariant 0 <= i <= |values|
          invariant Blocks(values[..i]) == Some(blocks)
        {
          var value := values[i];
          assert values[..i + 1][..i] == values[..i];
          if IsTruthyJson(value) {
            if !value.JString? {
              BlocksStayFailed(values, i + 1);
              return Clean(raw);
            }
            var cleanText := Clean(value.s);
            if cleanText != "" {
              blocks := blocks + [cleanText];
            }
          }
          i := i + 1;
        }
        assert values[..i] == values;
        return Join(blocks, "\n\n");
    }
  }

  // ---------------------------------------------------------------------------
  // Properties of the formatting

  /** One more value makes the `forEach` throw exactly when it had thrown already or the value is truthy and not a string. */
  lemma BlocksStep(values: seq<Json>)
    requires values != []
    ensures Blocks(values).None? <==>
              Blocks(values[..|values| - 1]).None?
              || (IsTruthyJson(values[|values| - 1]) && !values[|values| - 1].JString?)
  {
    var init := values[..|values| - 1];
    if Blocks(init).Some? {
      assert Blocks(values) == Visit(Blocks(init).value, values[|values| - 1]);
    }
  }

  /** A truthy value that is not a string makes the `forEach` throw, whatever comes before or after it. */
  lemma ThrowingValueFails(values: seq<Json>, k: nat)
    requires k < |values| && IsTruthyJson(values[k]) && !values[k].JString?
    ensures Blocks(values) == None
  {
    var upTo := values[..k + 1];
    assert upTo[..k] == values[..k] && upTo[k] == values[k];
    BlocksStep(upTo);
    BlocksStayFailed(values, k + 1);
  }

  /** Without a truthy non-string value the `forEach` never throws. */
  lemma {:induction false} NoThrowingValueSucceeds(values: seq<Json>)
    requires forall k :: 0 <= k < |values| ==> !(IsTruthyJson(values[k]) && !values[k].JString?)
    ensures Blocks(values).Some?
    decreases |values|
  {
    if values != [] {
      var init := values[..|values| - 1];
      forall k | 0 <= k < |init|
        ensures !(IsTruthyJson(init[k]) && !init[k].JString?)
      {
        assert init[k] == values[k];
      }
      NoThrowingValueSucceeds(init);
      BlocksStep(values);
    }
  }

  /** The `forEach` throws exactly when some visited value is truthy and not a string. */
  lemma BlocksFail(values: seq<Json>)
    ensures Blocks(values).None? <==> exists k :: 0 <= k < |values| && IsTruthyJson(values[k]) && !values[k].JString?
  {
    if exists k :: 0 <= k < |values| && IsTruthyJson(values[k]) && !values[k].JString? {
      var k :| 0 <= k < |values| && IsTruthyJson(values[k]) && !values[k].JString?;
      ThrowingValueFails(values, k);
    } else {
      NoThrowingValueSucceeds(values);
    }
  }

  /** Every block is non-empty, has no double quote, and has no whitespace at either end. */
  lemma {:induction false} BlocksAreClean(values: seq<Json>)
    ensures Blocks(values).Some? ==>
              forall k :: 0 <= k < |Blocks(values).value| ==>
                var b := Blocks(values).value[k];
                b != "" && '"' !in b && IsTrimmed(b)
    decreases |values|
  {
    if values != [] {
      var init := values[..|values| - 1];
      var last := values[|values| - 1];
      BlocksAreClean(init);
      if Blocks(init).Some? {
        var blocks := Blocks(init).value;
        assert Blocks(values) == Visit(blocks, last);
        if IsTruthyJson(last) && last.JString? && Clean(last.s) != "" {
          var after := blocks + [Clean(last.s)];
          assert Blocks(values) == Some(after);
          forall k | 0 <= k < |after|
            ensures after[k] != "" && '"' !in after[k] && IsTrimmed(after[k])
          {
            if k < |blocks| {
              assert after[k] == blocks[k];
            }
          }
        }
      }
    }
  }

  /** When no step throws, one step of the `forEach` appends the value's cleaning if it is not empty. */
  lemma VisitAppendsCleanedValue(blocks: seq<string>, v: Json)
    requires !(IsTruthyJson(v) && !v.JString?)
    ensures Visit(blocks, v) == Some(blocks + Seqs.Filter([CleanedValue(v)], NonEmpty))
  {
    var c := CleanedValue(v);
    assert [c][1..] == [];
    assert Seqs.Filter([c], NonEmpty) == (if NonEmpty(c) then [c] else []) + Seqs.Filter([], NonEmpty);
    assert Seqs.Filter([], NonEmpty) == [];
    if NonEmpty(c) {
      assert Seqs.Filter([c], NonEmpty) == [c];
      assert Visit(blocks, v) == Some(blocks + [c]);
    } else {
      assert Seqs.Filter([c], NonEmpty) == [];
      assert blocks + [] == blocks;
      assert Visit(blocks, v) == Some(blocks);
    }
  }

  lemma CleanedValuesOfLast(values: seq<Json>)
    requires values != []
    ensures CleanedValues(values) == CleanedValues(values[..|values| - 1]) + [CleanedValue(values[|values| - 1])]
  {
    var init := values[..|values| - 1];
    var whole := CleanedValues(values);
    var split := CleanedValues(init) + [CleanedValue(values[|values| - 1])];
    assert |whole| == |split|;
    forall k | 0 <= k < |whole|
      ensures whole[k] == split[k]
    {
      if k < |init| {
        assert init[k] == values[k];
      }
    }
    assert whole == split;
  }

  /**
   * When every truthy value is a string, the blocks are exactly the
   * non-empty cleaned values, in key order.
   */
  lemma {:induction false} BlocksAreCleanedValues(values: seq<Json>)
    requires forall k :: 0 <= k < |values| && IsTruthyJson(values[k]) ==> values[k].JString?
    ensures Blocks(values) == Some(Seqs.Filter(CleanedValues(values), NonEmpty))
    decreases |values|
  {
    if values == [] {
      assert CleanedValues(values) == [];
    } else {
      var init := values[..|values| - 1];
      var last := values[|values| - 1];
      forall k | 0 <= k < |init| && IsTruthyJson(init[k])
        ensures init[k].JString?
      {
        assert init[k] == values[k];
      }
      BlocksAreCleanedValues(init);
      var prev := Seqs.Filter(CleanedValues(init), NonEmpty);
      assert Blocks(init) == Some(prev);
      assert Blocks(values) == Visit(prev, last);
      VisitAppendsCleanedValue(prev, last);
      CleanedValuesOfLast(values);
      Seqs.FilterAppend(CleanedValues(init), [CleanedValue(last)], NonEmpty);
    }
  }

  /** A missing or empty description shows the placeholder. */
  lemma FalsyTextShowsPlaceholder(text: Option<string>, parsed: ParseResult)
    requires text.None? || text.value == ""
    ensures Formatted(text, parsed) == NoDescription
  {
  }

  /** Text that is not JSON comes out cleaned: no double quote and no whitespace at either end. */
  lemma NotJsonIsCleaned(raw: string)
    requires raw != ""
    ensures Formatted(Some(raw), NotJson) == Clean(raw)
    ensures '"' !in Formatted(Some(raw), NotJson) && IsTrimmed(Formatted(Some(raw), NotJson))
  {
  }

  /** Text that parses to a number, a string or a boolean is shown as it is, uncleaned. */
  lemma ScalarShownRaw(raw: string, v: Json)
    requires raw != "" && !IsObjectType(v)
    ensures Formatted(Some(raw), Parsed(v)) == raw
  {
  }

  /** Text that parses to `null` is cleaned, because `Object.keys(null)` throws. */
  lemma NullFallsBack(raw: string, v: Json)
    requires raw != "" && v.JNull?
    ensures Formatted(Some(raw), Parsed(v)) == Clean(raw)
  {
    NullFormatted(raw, v);
  }

  /** The `null` arm of `formatDescription`, unfolded on its own. */
  lemma NullFormatted(raw: string, v: Json)
    requires raw != "" && v.JNull?
    ensures Formatted(Some(raw), Parsed(v)) == Clean(raw)
  {
    assert IsObjectType(v);
  }

  /**
   * Text that parses to an array or object whose truthy values are all
   * strings shows the blocks, the non-empty cleaned values, joined by blank lines.
   */
  lemma ObjectShownAsBlocks(raw: string, v: Json)
    requires raw != "" && (v.JArray? || v.JObject?)
    requires forall k :: 0 <= k < |EntryValues(v)| && IsTruthyJson(EntryValues(v)[k]) ==> EntryValues(v)[k].JString?
    ensures Blocks(EntryValues(v)).Some?
    ensures Formatted(Some(raw), Parsed(v)) == Join(Blocks(EntryValues(v)).value, "\n\n")
    ensures Formatted(Some(raw), Parsed(v)) == Join(Seqs.Filter(CleanedValues(EntryValues(v)), NonEmpty), "\n\n")
  {
    var values := EntryValues(v);
    BlocksAreCleanedValues(values);
    ObjectFormattedFromBlocks(raw, v);
  }

  /** Once the `forEach` over an array or object has not thrown, its blocks joined by blank lines are shown. */
  lemma ObjectFormattedFromBlocks(raw: string, v: Json)
    requires raw != "" && (v.JArray? || v.JObject?)
    requires Blocks(EntryValues(v)).Some?
    ensures Formatted(Some(raw), Parsed(v)) == Join(Blocks(EntryValues(v)).value, "\n\n")
  {
  }

  /** When some truthy value of the parsed array or object is not a string, the raw text is cleaned instead. */
  lemma NonStringValueFallsBack(raw: string, v: Json)
    requires raw != "" && (v.JArray? || v.JObject?)
    requires exists k :: 0 <= k < |EntryValues(v)| && IsTruthyJson(EntryValues(v)[k]) && !EntryValues(v)[k].JString?
    ensures Formatted(Some(raw), Parsed(v)) == Clean(raw)
  {
    var values := EntryValues(v);
    BlocksFail(values);
    assert Blocks(values) == None;
    assert Formatted(Some(raw), Parsed(v)) == Formatted(Some(raw), NotJson);
    NotJsonIsCleaned(raw);
  }

  // ---------------------------------------------------------------------------
  // The bookmark button

  class Screen {
    /** The job passed in the route parameters. */
    const job: Job
    var saving: bool
    var isBookmarked: bool

    constructor (job: Job)
      ensures this.job == job && !saving && !isBookmarked
    {
      this.job := job;
      saving, isBookmarked := false, false;
    }

    /** `handleBookmark` up to its `await`: nothing while a save is running, otherwise mark the save as running. */
    method HandleBookmark() returns (started: bool)
      modifies this
      ensures started == !old(saving)
      ensures saving && isBookmarked == old(isBookmarked)
    {
      if saving {
        return false;
      }
      saving := true;
      return true;
    }

    /**
     * The rest of `handleBookmark`: the save itself; on success the job is
     * marked bookmarked; in every case the save is no longer running.
     */
    method BookmarkSettled(store: Db.BookmarkStore, now: string, readFails: bool, writeFails: bool)
      returns (saved: bool)
      modifies this, store
      ensures var step := Db.Save(old(store.stored), Some(job), now, readFails, writeFails);
              store.stored == step.stored && saved == step.out.Resolved?
      ensures isBookmarked == (old(isBookmarked) || saved)
      ensures !saving
    {
      var result := store.SaveBookmark(Some(job), now, readFails, writeFails);
      saved := result.Resolved?;
      if saved {
        isBookmarked := true;
      }
      saving := false;
    }
  }
}
