/**
 The brace scan of the accessibility check: from the start of a `Button(`
 call, find the `}` that closes the button's body, then take a fixed-size
 window of text from the call onwards.
 */
module Braces {
  import opened Text

  /** Net brace depth of `code[start..i]`: the number of `{` minus the number of `}`. */
  function Depth(code: string, start: nat, i: nat): (r: int)
    requires start <= i <= |code|
    decreases i - start
  {
    if i == start then 0
    else Depth(code, start, i - 1) + (if code[i - 1] == '{' then 1 else if code[i - 1] == '}' then -1 else 0)
  }

  /** Some `{` occurs in `code[start..i]`. */
  predicate OpenSeen(code: string, start: nat, i: nat)
    requires start <= i <= |code|
  {
    exists j | start <= j < i :: code[j] == '{'
  }

  /**
   Offset `i` holds a `}` that brings the depth back to zero after at least
   one `{` has been seen since `start`.
   */
  predicate ClosesBody(code: string, start: nat, i: nat) {
    start <= i < |code| && code[i] == '}' && OpenSeen(code, start, i) && Depth(code, start, i + 1) == 0
  }

  /** The first offset at or after `i` that closes the body, or `start` when there is none. */
  function FirstClose(code: string, start: nat, i: nat): (r: nat)
    requires start <= i <= |code|
    ensures (i <= r < |code| && ClosesBody(code, start, r) && forall j :: i <= j < r ==> !ClosesBody(code, start, j))
         || (r == start && forall j :: i <= j < |code| ==> !ClosesBody(code, start, j))
    decreases |code| - i
  {
    if i == |code| then start
    else if ClosesBody(code, start, i) then i
    else FirstClose(code, start, i + 1)
  }

  /**
   `button_end` as the source computes it: the first offset that closes the
   button's body, or `start` when the body never closes.
   */
  function ButtonEnd(code: string, start: nat): (r: nat)
    ensures start <= r
    ensures (r < |code| && ClosesBody(code, start, r) && forall j :: start <= j < r ==> !ClosesBody(code, start, j))
         || (r == start && forall j :: start <= j < |code| ==> !ClosesBody(code, start, j))
  {
    if start <= |code| then FirstClose(code, start, start) else start
  }

  /**
   The source's loop: count `{` up and `}` down from `start`, and stop at the
   first `}` that returns the count to zero once a `{` has been seen.
   */
  method ScanButtonEnd(code: string, start: nat) returns (buttonEnd: nat)
    requires start <= |code|
    ensures buttonEnd == ButtonEnd(code, start)
  {
    var braceCount := 0;
    var inButton := false;
    buttonEnd := start;
    var i := start;
    while i < |code|
      invariant start <= i <= |code|
      invariant braceCount == Depth(code, start, i)
      invariant inButton == OpenSeen(code, start, i)
      invariant forall j :: start <= j < i ==> !ClosesBody(code, start, j)
      decreases |code| - i
    {
      if code[i] == '{' {
        braceCount := braceCount + 1;
        inButton := true;
      } else if code[i] == '}' {
        braceCount := braceCount - 1;
        if inButton && braceCount == 0 {
          assert ClosesBody(code, start, i);
          buttonEnd := i;
          return;
        }
      }
      i := i + 1;
    }
  }

  /** How far past the closing brace the snippet reaches. */
  const Window: nat := 200

  /**
   Where the snippet ends, `min(button_end + 200, len(code))`: inside the
   text, past the closing brace when there is one, and exactly `Window`
   characters past the brace unless the text ends first.
   */
  function SnippetEnd(code: string, start: nat): (r: nat)
    ensures r <= |code|
    ensures start <= |code| ==> start <= r
    ensures ButtonEnd(code, start) < |code| ==> ButtonEnd(code, start) < r
    ensures r < |code| ==> r == ButtonEnd(code, start) + Window
  {
    Min(ButtonEnd(code, start) + Window, |code|)
  }

  /**
   `code[start : min(button_end + 200, len(code))]`. For a start inside the
   text the slice needs no clamping, holds the closing brace when there is
   one, and reaches no further than `Window` characters past the brace.
   */
  function Snippet(code: string, start: nat): (r: string)
    ensures start <= |code| ==> r == code[start..SnippetEnd(code, start)]
    ensures ClosesBody(code, start, ButtonEnd(code, start)) ==> r[ButtonEnd(code, start) - start] == '}'
    ensures start + |r| <= ButtonEnd(code, start) + Window
  {
    Slice(code, start, SnippetEnd(code, start))
  }
}
