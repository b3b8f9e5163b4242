/** `shlex.split(s)` as Python's standard library runs it (POSIX mode,
    splitting on whitespace only, no comments): a character-by-character
    state machine that is the lexer's `read_token` loop, with the tokens it
    has emitted so far in `acc`. */
module Shlex {
  import opened Wrappers
  import PyText

  /** The whitespace of a `shlex` lexer. */
  predicate IsShlexSpace(c: char) {
    c == ' ' || c == '\t' || c == '\r' || c == '\n'
  }

  /** Characters with a meaning of their own: the two quotes and the escape. */
  predicate IsSpecial(c: char) {
    c == '\'' || c == '"' || c == '\\'
  }

  /** Where an escape returns to: outside quotes, or inside double quotes. */
  datatype EscapeFrom = FromWord | FromDouble

  /** The lexer's `state`: ' ', 'a', a quote, or the escape character. */
  datatype Mode = Space | Word | Single | Double | Escape(from: EscapeFrom)

  datatype ShlexError = NoClosingQuotation | NoEscapedCharacter

  /** The token under construction is emitted when it is non-empty or when
      part of it was quoted (so `''` gives an empty token). */
  function Emit(acc: seq<string>, tok: string, quoted: bool): seq<string> {
    if tok != "" || quoted then acc + [tok] else acc
  }

  function Run(s: string, mode: Mode, tok: string, quoted: bool, acc: seq<string>): Result<seq<string>, ShlexError>
    decreases |s|
  {
    if s == [] then
      match mode
      case Space => Ok(Emit(acc, tok, quoted))
      case Word => Ok(Emit(acc, tok, quoted))
      case Single => Err(NoClosingQuotation)
      case Double => Err(NoClosingQuotation)
      case Escape(_) => Err(NoEscapedCharacter)
    else
      var c, rest := s[0], s[1..];
      match mode
      case Space =>
        if IsShlexSpace(c) then
          if tok != "" || quoted then Run(rest, Space, "", false, acc + [tok])
          else Run(rest, Space, tok, quoted, acc)
        else if c == '\\' then Run(rest, Escape(FromWord), tok, quoted, acc)
        else if c == '\'' then Run(rest, Single, tok, quoted, acc)
        else if c == '"' then Run(rest, Double, tok, quoted, acc)
        else Run(rest, Word, [c], quoted, acc)
      case Word =>
        if IsShlexSpace(c) then Run(rest, Space, "", false, Emit(acc, tok, quoted))
        else if c == '\'' then Run(rest, Single, tok, quoted, acc)
        else if c == '"' then Run(rest, Double, tok, quoted, acc)
        else if c == '\\' then Run(rest, Escape(FromWord), tok, quoted, acc)
        else Run(rest, Word, tok + [c], quoted, acc)
      case Single =>
        if c == '\'' then Run(rest, Word, tok, true, acc)
        else Run(rest, Single, tok + [c], true, acc)
      case Double =>
        if c == '"' then Run(rest, Word, tok, true, acc)
        else if c == '\\' then Run(rest, Escape(FromDouble), tok, true, acc)
        else Run(rest, Double, tok + [c], true, acc)
      case Escape(from) =>
        // inside double quotes only the quote and the escape itself can be escaped
        var kept := if from == FromDouble && c != '\\' && c != '"' then tok + ['\\'] else tok;
        Run(rest, if from == FromDouble then Double else Word, kept + [c], quoted, acc)
  }

  /** `shlex.split(s)`: the list of words, or the `ValueError` it raises.
      A string of nothing but whitespace, the empty string included, has no
      words. */
  function Split(s: string): (r: Result<seq<string>, ShlexError>)
    ensures (forall k :: 0 <= k < |s| ==> IsShlexSpace(s[k])) ==> r == Ok([])
  {
    RunBlank(s, []);
    Run(s, Space, "", false, [])
  }

  /** Whitespace between words adds nothing. */
  lemma {:induction false} RunBlank(s: string, acc: seq<string>)
    ensures (forall k :: 0 <= k < |s| ==> IsShlexSpace(s[k])) ==> Run(s, Space, "", false, acc) == Ok(acc)
    decreases |s|
  {
    if s != [] && forall k :: 0 <= k < |s| ==> IsShlexSpace(s[k]) {
      RunBlank(s[1..], acc);
      assert forall k :: 0 <= k < |s[1..]| ==> s[1..][k] == s[k + 1];
    }
  }

  predicate Plain(w: string) {
    forall k :: 0 <= k < |w| ==> !IsShlexSpace(w[k]) && !IsSpecial(w[k])
  }

  /** Plain characters are appended to the word being read. */
  lemma {:induction false} RunPlainWord(w: string, t: string, tok: string, quoted: bool, acc: seq<string>)
    requires Plain(w)
    ensures Run(w + t, Word, tok, quoted, acc) == Run(t, Word, tok + w, quoted, acc)
    decreases |w|
  {
    if w == [] {
      assert w + t == t;
      assert tok + w == tok;
    } else {
      assert (w + t)[1..] == w[1..] + t;
      RunPlainWord(w[1..], t, tok + [w[0]], quoted, acc);
      assert tok + [w[0]] + w[1..] == tok + w;
    }
  }

  lemma {:induction false} RunJoined(ws: seq<string>, acc: seq<string>)
    requires forall k :: 0 <= k < |ws| ==> ws[k] != "" && Plain(ws[k])
    ensures Run(PyText.Join(" ", ws), Space, "", false, acc) == Ok(acc + ws)
    decreases |ws|
  {
    if |ws| == 0 {
      assert acc + ws == acc;
    } else {
      var w := ws[0];
      var rest := if |ws| == 1 then "" else " " + PyText.Join(" ", ws[1..]);
      assert PyText.Join(" ", ws) == [w[0]] + (w[1..] + rest);
      assert Run(PyText.Join(" ", ws), Space, "", false, acc) == Run(w[1..] + rest, Word, [w[0]], false, acc);
      RunPlainWord(w[1..], rest, [w[0]], false, acc);
      assert [w[0]] + w[1..] == w;
      if |ws| == 1 {
        assert ws == [w];
      } else {
        assert rest[1..] == PyText.Join(" ", ws[1..]);
        RunJoined(ws[1..], acc + [w]);
        assert acc + [w] + ws[1..] == acc + ws;
      }
    }
  }

  /** Plain non-empty words joined by single spaces split back into the same
      words. */
  lemma SplitJoinedWords(ws: seq<string>)
    requires forall k :: 0 <= k < |ws| ==> ws[k] != "" && Plain(ws[k])
    ensures Split(PyText.Join(" ", ws)) == Ok(ws)
  {
    RunJoined(ws, []);
    assert [] + ws == ws;
  }

  /** A double quote that is never closed makes the split fail. */
  lemma {:induction false} RunUnclosedDouble(t: string, tok: string, quoted: bool, acc: seq<string>)
    requires forall k :: 0 <= k < |t| ==> t[k] != '"' && t[k] != '\\'
    ensures Run(t, Double, tok, quoted, acc) == Err(NoClosingQuotation)
    decreases |t|
  {
    if t != [] {
      RunUnclosedDouble(t[1..], tok + [t[0]], true, acc);
    }
  }

  /** Words followed by an opening double quote whose string runs to the end
      of the input make `shlex.split` raise "No closing quotation". */
  lemma SplitUnclosedQuote(ws: seq<string>, t: string)
    requires |ws| >= 1
    requires forall k :: 0 <= k < |ws| ==> ws[k] != "" && Plain(ws[k])
    requires forall k :: 0 <= k < |t| ==> t[k] != '"' && t[k] != '\\'
    ensures Split(PyText.Join(" ", ws + [""]) + "\"" + t) == Err(NoClosingQuotation)
  {
    RunJoinedThenQuote(ws, [], t);
  }

  lemma {:induction false} RunJoinedThenQuote(ws: seq<string>, acc: seq<string>, t: string)
    requires |ws| >= 1
    requires forall k :: 0 <= k < |ws| ==> ws[k] != "" && Plain(ws[k])
    requires forall k :: 0 <= k < |t| ==> t[k] != '"' && t[k] != '\\'
    ensures Run(PyText.Join(" ", ws + [""]) + "\"" + t, Space, "", false, acc) == Err(NoClosingQuotation)
    decreases |ws|
  {
    var w := ws[0];
    var rest := PyText.Join(" ", ws[1..] + [""]);
    assert (ws + [""])[1..] == ws[1..] + [""];
    assert PyText.Join(" ", ws + [""]) == w + " " + rest;
    var s := PyText.Join(" ", ws + [""]) + "\"" + t;
    var after := " " + rest + "\"" + t;
    assert s == [w[0]] + (w[1..] + after);
    RunPlainWord(w[1..], after, [w[0]], false, acc);
    assert [w[0]] + w[1..] == w;
    assert after[1..] == rest + "\"" + t;
    if |ws| == 1 {
      assert rest == "";
      assert (rest + "\"" + t)[1..] == t;
      RunUnclosedDouble(t, "", false, acc + [w]);
    } else {
      RunJoinedThenQuote(ws[1..], acc + [w], t);
    }
  }
}
