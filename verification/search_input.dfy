/**
 * The search box of the left pane: the typed query and whether the box has
 * keyboard focus.
 */
module SearchInput {

  /** `String::pop`: the string without its last character; the empty string stays empty. */
  function Pop(s: string): (r: string)
    ensures |s| == 0 ==> r == []
    ensures |s| > 0 ==> |r| == |s| - 1 && s == r + [s[|s| - 1]]
  {
    if |s| == 0 then [] else s[..|s| - 1]
  }

  /** Removing the character just pushed gives the string back. */
  lemma PopAfterPush(s: string, c: char)
    ensures Pop(s + [c]) == s
  {
    assert (s + [c])[..|s|] == s;
  }

  /** Popping only ever removes the last character: what is left is a prefix. */
  lemma PopIsPrefix(s: string)
    ensures Pop(s) <= s && |Pop(s)| == if |s| == 0 then 0 else |s| - 1
  {
  }

  /** `SearchInputState`. */
  class SearchInputState {
    var query: string
    var focused: bool

    /** `Default`: empty and unfocused. */
    constructor()
      ensures query == [] && !focused
    {
      query := [];
      focused := false;
    }

    /** `focus`: only the focus flag changes. */
    method Focus()
      modifies this
      ensures focused && query == old(query)
    {
      focused := true;
    }

    /** `unfocus`: only the focus flag changes. */
    method Unfocus()
      modifies this
      ensures !focused && query == old(query)
    {
      focused := false;
    }

    function IsFocused(): bool
      reads this
    {
      focused
    }

    function Query(): string
      reads this
    {
      query
    }

    /** `is_empty`: nothing has been typed. */
    predicate IsEmpty()
      reads this
    {
      |query| == 0
    }

    /** `push_char`: one character more at the end; focus is untouched. */
    method PushChar(c: char)
      modifies this
      ensures query == old(query) + [c] && |query| == |old(query)| + 1
      ensures focused == old(focused)
    {
      query := query + [c];
    }

    /** `backspace`: the last character goes; nothing happens on an empty query. */
    method Backspace()
      modifies this
      ensures query == Pop(old(query)) && focused == old(focused)
      ensures old(query) == [] ==> query == []
    {
      query := Pop(query);
    }

    /** Typing a character and deleting it again leaves the query as it was. */
    method PushThenBackspace(c: char)
      modifies this
      ensures query == old(query) && focused == old(focused)
    {
      PushChar(c);
      Backspace();
      PopAfterPush(old(query), c);
    }
  }
}
