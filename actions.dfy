/**
 * Action dispatch of src/actions/mod.rs: `handle_actions` turns the action
 * the launcher reports, the dialog response and the custom arguments into one
 * operation on the snippet store.
 *
 * A failing `unwrap`, an out-of-range index or a failing `parse` makes the
 * process panic before the store is written; `exit(0)` after the "Empty
 * Fields" notification also ends the run without writing. Both leave the
 * store as it was.
 */
module Actions {
  import opened Wrappers
  import opened Strings
  import opened Snippets
  import Results

  /** The dialog the user submitted: its field values by field id, and the arguments the dialog was opened with. */
  datatype DialogResponse = DialogResponse(values: map<string, string>, args: Option<seq<string>>)

  /** How a run of `handle_actions` ends. */
  datatype Outcome =
    | Finished     // returned normally
    | EmptyFields  // "Empty Fields" notification, then exit(0)
    | Aborted      // an unwrap, an index or a parse failed and the process panicked

  /** `response.get_result_value(id)`. */
  function GetResultValue(response: DialogResponse, id: string): Option<string>
  {
    if id in response.values then Some(response.values[id]) else None
  }

  /** The dialog answered all four snippet fields. */
  predicate HasSnippetFields(response: DialogResponse)
  {
    "name" in response.values && "keyword" in response.values
    && "language" in response.values && "snippet" in response.values
  }

  /** `args[0].parse::<usize>()`, with a missing first argument read as a failure. */
  function FirstArgId(args: seq<string>): Option<nat>
  {
    if args == [] then None else ParseUsize(args[0])
  }

  /** The add dialog is refused when name, keyword or snippet is blank; the language is not checked. */
  predicate AddRefused(response: DialogResponse)
    requires HasSnippetFields(response)
  {
    IsBlank(response.values["name"]) || IsBlank(response.values["keyword"]) || IsBlank(response.values["snippet"])
  }

  /** `handle_actions`. */
  method HandleActions(store: SnippetStore, action: Option<string>, response: Option<DialogResponse>, customArgs: seq<string>)
    returns (outcome: Outcome)
    modifies store
    ensures action.None? ==> outcome == Aborted && store.snippets == old(store.snippets)
    ensures action == Some("add_snippet") ==>
      if response.None? || !HasSnippetFields(response.value) then
        outcome == Aborted && store.snippets == old(store.snippets)
      else if AddRefused(response.value) then
        outcome == EmptyFields && store.snippets == old(store.snippets)
      else
        var v := response.value.values;
        outcome == Finished
        && store.snippets == Added(old(store.snippets), v["name"], v["language"], v["keyword"], v["snippet"])
    ensures action == Some("edit_snippet") ==>
      if response.None? || !HasSnippetFields(response.value) || response.value.args.None?
         || FirstArgId(response.value.args.value).None? then
        outcome == Aborted && store.snippets == old(store.snippets)
      else
        var v := response.value.values;
        outcome == Finished
        && store.snippets == Edited(old(store.snippets), FirstArgId(response.value.args.value).value,
                                    v["name"], v["keyword"], v["language"], v["snippet"])
    ensures action == Some("delete_snippet") ==>
      if FirstArgId(customArgs).None? then
        outcome == Aborted && store.snippets == old(store.snippets)
      else
        outcome == Finished && store.snippets == Deleted(old(store.snippets), FirstArgId(customArgs).value)
    ensures action.Some? && action.value !in {"add_snippet", "edit_snippet", "delete_snippet"} ==>
      outcome == Finished && store.snippets == old(store.snippets)
    ensures UniqueIds(old(store.snippets)) ==> UniqueIds(store.snippets)
  {
    if action.None? {
      return Aborted;
    }
    var act := action.value;

    if act == "add_snippet" {
      if response.None? {
        return Aborted;
      }
      var name := GetResultValue(response.value, "name");
      var keyword := GetResultValue(response.value, "keyword");
      var language := GetResultValue(response.value, "language");
      var snippet := GetResultValue(response.value, "snippet");
      if name.None? || keyword.None? || language.None? || snippet.None? {
        return Aborted;
      }
      if IsBlank(name.value) || IsBlank(keyword.value) || IsBlank(snippet.value) {
        return EmptyFields;
      }
      store.AddSnippet(name.value, language.value, keyword.value, snippet.value);
    }

    if act == "edit_snippet" {
      if response.None? {
        return Aborted;
      }
      var name := GetResultValue(response.value, "name");
      var keyword := GetResultValue(response.value, "keyword");
      var language := GetResultValue(response.value, "language");
      var snippet := GetResultValue(response.value, "snippet");
      if name.None? || keyword.None? || language.None? || snippet.None? || response.value.args.None? {
        return Aborted;
      }
      var id := FirstArgId(response.value.args.value);
      if id.None? {
        return Aborted;
      }
      store.EditSnippet(id.value, name.value, keyword.value, language.value, snippet.value);
    }

    if act == "delete_snippet" {
      var id := FirstArgId(customArgs);
      if id.None? {
        return Aborted;
      }
      store.DeleteSnippet(id.value);
    }

    return Finished;
  }

  /** The argument an edit entry opens its dialog with names the snippet it was built for. */
  lemma EditEntryTargetsItsSnippet(sn: Snippet)
    requires sn.id <= UsizeMax
    ensures var action := Results.EditResult(sn).action;
      && action.action == "edit_snippet"
      && FirstArgId(action.args) == Some(sn.id)
  {
    ParseToString(sn.id);
  }

  /** The argument a delete entry runs its action with names the snippet it was built for. */
  lemma DeleteEntryTargetsItsSnippet(sn: Snippet)
    requires sn.id <= UsizeMax
    ensures var action := Results.DeleteResult(sn).action;
      && action.action == "delete_snippet"
      && FirstArgId(action.args) == Some(sn.id)
  {
    ParseToString(sn.id);
  }
}
