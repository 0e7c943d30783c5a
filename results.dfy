/**
 * Result building of src/results/mod.rs: which views `handle_results` emits
 * for a search, which snippets each view lists, and the placeholder
 * substitution applied to a snippet's body in keyword mode.
 *
 * The fuzzy matcher (`SkimMatcherV2::fuzzy_match(choice, pattern).is_some()`)
 * is a parameter `matches` of type Matcher; icons and dialog fields are not
 * modelled. Sending a view to the launcher is appending it to the list of
 * emitted views.
 */
module Results {
  import opened Wrappers
  import opened Strings
  import opened Snippets

  /** `Search` as split off by the launcher: an optional keyword and the rest of the query. */
  datatype Search = Search(keyword: Option<string>, searchText: string)

  /** `matches(choice, pattern)`: the fuzzy matcher accepts `pattern` against `choice`. */
  type Matcher = (string, string) -> bool

  /** `EXTENSION_ID` of src/main.rs. */
  const ExtensionId: string := "lighttigerxiv/snippets"

  /** What the launcher does when a result is chosen. */
  datatype Action =
    | CopyToClipboard(text: string)
    | Dialog(extensionId: string, title: string, action: string, args: seq<string>)
    | Extension(extensionId: string, action: string, args: seq<string>)

  /** `WhiskersResult::Text` and `WhiskersResult::TitleAndText`, without their icons. */
  datatype LauncherResult =
    | Text(title: string, action: Action)
    | TitleAndText(title: string, text: string, action: Action)

  // ---------------------------------------------------------------------
  // Placeholder substitution
  // ---------------------------------------------------------------------

  /** `format!("{{%{}}}", index)`: the literal text `{%` + decimal index + `}`. */
  function Placeholder(index: nat): (p: string)
    ensures |p| >= 3 && p[0] == '{' && p[1] == '%' && p[|p| - 1] == '}'
  {
    "{%" + NatToString(index) + "}"
  }

  /**
   * The body after the substitution loop: word `i` replaces every `{%i}`, one
   * index after the other in ascending order, each step acting on the text the
   * previous one produced.
   */
  function Substitute(body: string, words: seq<string>): string
    decreases |words|
  {
    if words == [] then body
    else
      var n := |words| - 1;
      Replace(Substitute(body, words[..n]), Placeholder(n), words[n])
  }

  /** The `for (index, word) in search_split.enumerate()` loop that rewrites `replaced_snippet`. */
  method SubstitutePlaceholders(body: string, words: seq<string>) returns (replaced: string)
    ensures replaced == Substitute(body, words)
  {
    replaced := body;
    var index := 0;
    while index < |words|
      invariant 0 <= index <= |words|
      invariant replaced == Substitute(body, words[..index])
    {
      var pattern := Placeholder(index);
      assert words[..index + 1][..index] == words[..index];
      replaced := Replace(replaced, pattern, words[index]);
      index := index + 1;
    }
    assert words[..index] == words;
  }

  /** A body none of whose placeholders has a word is shown as it is; in particular with no words. */
  lemma {:induction false} SubstituteUntouched(body: string, words: seq<string>)
    requires forall i: nat :: i < |words| ==> !Occurs(body, Placeholder(i))
    ensures Substitute(body, words) == body
    decreases |words|
  {
    if words != [] {
      var n := |words| - 1;
      SubstituteUntouched(body, words[..n]);
      ReplaceAbsent(body, Placeholder(n), words[n]);
    }
  }

  /** The characters a placeholder is written with. */
  predicate PlaceholderChar(c: char)
  {
    c == '{' || c == '%' || c == '}' || IsDigit(c)
  }

  /** A non-empty word written without any placeholder character. */
  predicate PlainWord(w: string)
  {
    w != [] && forall i :: 0 <= i < |w| ==> !PlaceholderChar(w[i])
  }

  lemma PlaceholderShape(index: nat)
    ensures var p := Placeholder(index);
      && (forall d :: 0 <= d < |p| ==> PlaceholderChar(p[d]))
      && (forall d :: 0 < d < |p| ==> p[d] != '{')
  {
  }

  /** Two different placeholders can never overlap in a text. */
  lemma PlaceholdersSeparable(i: nat, j: nat)
    requires i != j
    ensures Separable(Placeholder(i), Placeholder(j))
  {
    var p, q := Placeholder(i), Placeholder(j);
    var a, b := NatToString(i), NatToString(j);
    PlaceholderShape(i);
    PlaceholderShape(j);
    if |a| == |b| {
      if a == b {
        NatToStringInjective(i, j);
      }
      var t :| 0 <= t < |a| && a[t] != b[t];
      assert p[t + 2] == a[t] && q[t + 2] == b[t];
    } else if |a| < |b| {
      assert p[|a| + 2] == '}' && q[|a| + 2] == b[|a|];
    } else {
      assert q[|b| + 2] == '}' && p[|b| + 2] == a[|b|];
    }
  }

  /** A plain word can never overlap a placeholder. */
  lemma PlainWordSeparable(i: nat, w: string)
    requires PlainWord(w)
    ensures Separable(Placeholder(i), w)
  {
  }

  /**
   * When the words are plain, no `{%i}` with `i` below the word count is left
   * after substitution.
   */
  lemma {:induction false} SubstituteRemovesPlaceholders(body: string, words: seq<string>)
    requires forall k :: 0 <= k < |words| ==> PlainWord(words[k])
    ensures forall i: nat :: i < |words| ==> !Occurs(Substitute(body, words), Placeholder(i))
    decreases |words|
  {
    if words != [] {
      var n := |words| - 1;
      var before := Substitute(body, words[..n]);
      SubstituteRemovesPlaceholders(body, words[..n]);
      forall i: nat | i < |words| ensures !Occurs(Substitute(body, words), Placeholder(i)) {
        PlainWordSeparable(i, words[n]);
        if i == n {
          ReplaceRemoves(before, Placeholder(n), words[n]);
        } else {
          ReplaceKeepsAbsent(before, Placeholder(n), words[n], Placeholder(i));
        }
      }
    }
  }

  /**
   * A `{%j}` with `j` at or above the word count has no word, so substitution
   * leaves every occurrence of it in place, whatever the words: the output has
   * at least as many.
   */
  lemma {:induction false} SubstituteKeepsHigherPlaceholders(body: string, words: seq<string>, j: nat)
    requires |words| <= j
    ensures Count(body, Placeholder(j)) <= Count(Substitute(body, words), Placeholder(j))
    ensures Occurs(body, Placeholder(j)) ==> Occurs(Substitute(body, words), Placeholder(j))
    decreases |words|
  {
    if words != [] {
      var n := |words| - 1;
      SubstituteKeepsHigherPlaceholders(body, words[..n], j);
      PlaceholdersSeparable(j, n);
      ReplaceKeepsCount(Substitute(body, words[..n]), Placeholder(n), words[n], Placeholder(j));
    }
    CountPositiveIffOccurs(body, Placeholder(j));
    CountPositiveIffOccurs(Substitute(body, words), Placeholder(j));
  }

  /**
   * Without plain words a placeholder can be rebuilt: the word "0" completes
   * "{%" and "}" around the consumed "{%0}" into a new "{%0}".
   */
  lemma WordCanRebuildPlaceholder()
    ensures Substitute("{%{%0}}", ["0"]) == Placeholder(0)
  {
  }

  /** Replacements run in ascending index order, so a word may itself be a later placeholder. */
  lemma SubstitutionIsOrdered()
    ensures Substitute("{%0}", ["{%1}", "x"]) == "x"
  {
    assert Placeholder(0) == "{%0}" && Placeholder(1) == "{%1}";
    assert ["{%1}", "x"][..1] == ["{%1}"];
    assert Replace("", "{%0}", "{%1}") == "";
    assert Substitute("{%0}", ["{%1}"]) == "{%1}";
    assert Replace("", "{%1}", "x") == "";
  }

  // ---------------------------------------------------------------------
  // The views
  // ---------------------------------------------------------------------

  /** One result per snippet, in the order of the snippets. */
  function Build(s: seq<Snippet>, f: Snippet -> LauncherResult): (r: seq<LauncherResult>)
    ensures |r| == |s| && forall k :: 0 <= k < |s| ==> r[k] == f(s[k])
  {
    seq(|s|, k requires 0 <= k < |s| => f(s[k]))
  }

  /** The view `show_default_results` sends: the entry that opens the "Add Snippet" dialog. */
  function DefaultView(): (view: seq<LauncherResult>)
    ensures |view| == 1 && view[0].Text? && view[0].title == "Add Snippet"
    ensures view[0].action.Dialog? && view[0].action.extensionId == ExtensionId
    ensures view[0].action.action == "add_snippet" && view[0].action.args == []
  {
    [Text("Add Snippet", Dialog(ExtensionId, "Add Snippet", "add_snippet", []))]
  }

  /** The match test of `show_snippets_results`: the snippet's keyword against the keyword, or else the text. */
  function SnippetsKeep(search: Search, matches: Matcher): Snippet -> bool
  {
    (sn: Snippet) =>
      if search.keyword.Some? then matches(sn.keyword, search.keyword.value)
      else matches(sn.keyword, search.searchText)
  }

  /** The text a snippet is shown and copied with. */
  function ShownText(search: Search, sn: Snippet): string
  {
    if search.keyword.Some? then Substitute(sn.body, SplitWhitespace(search.searchText)) else sn.body
  }

  function SnippetResult(search: Search): Snippet -> LauncherResult
  {
    (sn: Snippet) =>
      var text := ShownText(search, sn);
      TitleAndText(sn.name + " - " + sn.keyword, text, CopyToClipboard(text))
  }

  function SnippetsView(search: Search, snippets: seq<Snippet>, matches: Matcher): seq<LauncherResult>
  {
    Build(Filter(snippets, SnippetsKeep(search, matches)), SnippetResult(search))
  }

  /** The match test of `show_edit_results`: keyword followed by name, against the text. */
  function EditKeep(search: Search, matches: Matcher): Snippet -> bool
  {
    (sn: Snippet) => matches(sn.keyword + sn.name, search.searchText)
  }

  function EditResult(sn: Snippet): LauncherResult
  {
    Text("Edit (" + sn.name + ") (" + sn.keyword + ") (" + sn.language + ")",
         Dialog(ExtensionId, "Edit " + sn.name, "edit_snippet", [NatToString(sn.id)]))
  }

  function EditView(search: Search, snippets: seq<Snippet>, matches: Matcher): seq<LauncherResult>
  {
    Build(Filter(snippets, EditKeep(search, matches)), EditResult)
  }

  /** The match test of `show_delete_results`: the keyword against the text. */
  function DeleteKeep(search: Search, matches: Matcher): Snippet -> bool
  {
    (sn: Snippet) => matches(sn.keyword, search.searchText)
  }

  function DeleteResult(sn: Snippet): LauncherResult
  {
    TitleAndText("Delete (" + sn.name + ") (" + sn.keyword + ") (" + sn.language + ")",
                 sn.body,
                 Extension(ExtensionId, "delete_snippet", [NatToString(sn.id)]))
  }

  function DeleteView(search: Search, snippets: seq<Snippet>, matches: Matcher): seq<LauncherResult>
  {
    Build(Filter(snippets, DeleteKeep(search, matches)), DeleteResult)
  }

  /** One more snippet looked at extends a view by at most its own result. */
  lemma BuildStep(s: seq<Snippet>, i: nat, keep: Snippet -> bool, f: Snippet -> LauncherResult)
    requires i < |s|
    ensures Build(Filter(s[..i + 1], keep), f)
      == Build(Filter(s[..i], keep), f) + (if keep(s[i]) then [f(s[i])] else [])
  {
    assert s[..i + 1][..i] == s[..i];
  }

  /** `show_snippets_results`. */
  method ShowSnippetsResults(search: Search, snippets: seq<Snippet>, matches: Matcher)
    returns (results: seq<LauncherResult>)
    ensures results == SnippetsView(search, snippets, matches)
  {
    results := [];
    var i := 0;
    while i < |snippets|
      invariant 0 <= i <= |snippets|
      invariant results == SnippetsView(search, snippets[..i], matches)
    {
      var snippet := snippets[i];
      BuildStep(snippets, i, SnippetsKeep(search, matches), SnippetResult(search));
      if search.keyword.Some? {
        var keyword := search.keyword.value;
        if matches(snippet.keyword, keyword) {
          var searchSplit := SplitWhitespace(search.searchText);
          var replacedSnippet := SubstitutePlaceholders(snippet.body, searchSplit);
          results := results + [TitleAndText(snippet.name + " - " + snippet.keyword, replacedSnippet,
                                             CopyToClipboard(replacedSnippet))];
        }
      } else {
        if matches(snippet.keyword, search.searchText) {
          results := results + [TitleAndText(snippet.name + " - " + snippet.keyword, snippet.body,
                                             CopyToClipboard(snippet.body))];
        }
      }
      i := i + 1;
    }
    assert snippets[..i] == snippets;
  }

  /** `show_edit_results`. */
  method ShowEditResults(search: Search, snippets: seq<Snippet>, matches: Matcher)
    returns (results: seq<LauncherResult>)
    ensures results == EditView(search, snippets, matches)
  {
    results := [];
    var i := 0;
    while i < |snippets|
      invariant 0 <= i <= |snippets|
      invariant results == EditView(search, snippets[..i], matches)
    {
      var snippet := snippets[i];
      BuildStep(snippets, i, EditKeep(search, matches), EditResult);
      var searchString := snippet.keyword + snippet.name;
      if matches(searchString, search.searchText) {
        var action := Dialog(ExtensionId, "Edit " + snippet.name, "edit_snippet", [NatToString(snippet.id)]);
        results := results + [Text("Edit (" + snippet.name + ") (" + snippet.keyword + ") (" + snippet.language + ")",
                                   action)];
      }
      i := i + 1;
    }
    assert snippets[..i] == snippets;
  }

  /** `show_delete_results`. */
  method ShowDeleteResults(search: Search, snippets: seq<Snippet>, matches: Matcher)
    returns (results: seq<LauncherResult>)
    ensures results == DeleteView(search, snippets, matches)
  {
    results := [];
    var i := 0;
    while i < |snippets|
      invariant 0 <= i <= |snippets|
      invariant results == DeleteView(search, snippets[..i], matches)
    {
      var snippet := snippets[i];
      BuildStep(snippets, i, DeleteKeep(search, matches), DeleteResult);
      if matches(snippet.keyword, search.searchText) {
        results := results + [TitleAndText("Delete (" + snippet.name + ") (" + snippet.keyword + ") (" + snippet.language + ")",
                                           snippet.body,
                                           Extension(ExtensionId, "delete_snippet", [NatToString(snippet.id)]))];
      }
      i := i + 1;
    }
    assert snippets[..i] == snippets;
  }

  predicate IsEditKeyword(kwd: string)
  {
    kwd == "e" || kwd == "edit"
  }

  predicate IsDeleteKeyword(kwd: string)
  {
    kwd == "d" || kwd == "delete"
  }

  /**
   * `handle_results`: the views sent to the launcher, in the order they are sent.
   * `snippets` is what `get_snippets` reads.
   */
  method HandleResults(search: Search, snippets: seq<Snippet>, matches: Matcher)
    returns (emitted: seq<seq<LauncherResult>>)
    ensures search.keyword.None? && search.searchText == [] ==> emitted == [DefaultView(), []]
    ensures search.keyword.None? && search.searchText != [] && IsBlank(search.searchText) ==> emitted == [[]]
    ensures search.keyword.None? && !IsBlank(search.searchText) ==>
      emitted == [SnippetsView(search, snippets, matches), []]
    ensures search.keyword.Some? && IsEditKeyword(search.keyword.value) ==>
      emitted == [EditView(search, snippets, matches), SnippetsView(search, snippets, matches), []]
    ensures search.keyword.Some? && IsDeleteKeyword(search.keyword.value) ==>
      emitted == [DeleteView(search, snippets, matches), SnippetsView(search, snippets, matches), []]
    ensures search.keyword.Some? && !IsEditKeyword(search.keyword.value) && !IsDeleteKeyword(search.keyword.value) ==>
      emitted == [SnippetsView(search, snippets, matches), []]
  {

    emitted := [];
    if search.keyword.None? && search.searchText == [] {
      emitted := emitted + [DefaultView()];
    }
    if search.keyword.Some? {
      var kwd := search.keyword.value;
      if IsEditKeyword(kwd) {
        var view := ShowEditResults(search, snippets, matches);
        emitted := emitted + [view];
      }
      if IsDeleteKeyword(kwd) {
        var view := ShowDeleteResults(search, snippets, matches);
        emitted := emitted + [view];
      }
      var view := ShowSnippetsResults(search, snippets, matches);
      emitted := emitted + [view];
    }
    if search.keyword.None? && !IsBlank(search.searchText) {
      var view := ShowSnippetsResults(search, snippets, matches);
      emitted := emitted + [view];
    }
    emitted := emitted + [[]];
  }

  // ---------------------------------------------------------------------
  // What the views promise
  // ---------------------------------------------------------------------

  /**
   * The snippets view lists exactly the matching snippets, one result each and
   * in store order; every result copies exactly the text it displays, and
   * without a keyword that text is the unmodified body.
   */
  lemma SnippetsViewShape(search: Search, snippets: seq<Snippet>, matches: Matcher)
    ensures var shown := Filter(snippets, SnippetsKeep(search, matches));
      var view := SnippetsView(search, snippets, matches);
      && |view| == |shown|
      && (forall k :: 0 <= k < |view| ==>
            && view[k].TitleAndText?
            && view[k].title == shown[k].name + " - " + shown[k].keyword
            && view[k].action == CopyToClipboard(view[k].text)
            && (search.keyword.None? ==> view[k].text == shown[k].body))
  {
  }

  /** In keyword mode with no words after the keyword, every snippet is shown with its body unchanged. */
  lemma KeywordWithoutWordsShowsBody(search: Search, snippets: seq<Snippet>, matches: Matcher)
    requires search.keyword.Some? && AllWhitespace(search.searchText)
    ensures var shown := Filter(snippets, SnippetsKeep(search, matches));
      var view := SnippetsView(search, snippets, matches);
      forall k :: 0 <= k < |view| ==> view[k].text == shown[k].body
  {
    BlankIffAllWhitespace(search.searchText);
    SplitWhitespaceEmptyIffBlank(search.searchText);
  }

  /** The edit view: one "Edit" entry per matching snippet, whose dialog carries the id as its only argument. */
  lemma EditViewShape(search: Search, snippets: seq<Snippet>, matches: Matcher)
    ensures var shown := Filter(snippets, EditKeep(search, matches));
      var view := EditView(search, snippets, matches);
      && |view| == |shown|
      && (forall k :: 0 <= k < |view| ==>
            && view[k].action.Dialog?
            && view[k].action.action == "edit_snippet"
            && view[k].action.args == [NatToString(shown[k].id)])
  {
  }

  /** The delete view: one entry per matching snippet, whose extension action carries the id as its only argument. */
  lemma DeleteViewShape(search: Search, snippets: seq<Snippet>, matches: Matcher)
    ensures var shown := Filter(snippets, DeleteKeep(search, matches));
      var view := DeleteView(search, snippets, matches);
      && |view| == |shown|
      && (forall k :: 0 <= k < |view| ==>
            && view[k].TitleAndText?
            && view[k].text == shown[k].body
            && view[k].action.Extension?
            && view[k].action.action == "delete_snippet"
            && view[k].action.args == [NatToString(shown[k].id)])
  {
  }
}
