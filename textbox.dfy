/** The word wrap of textbox_demo.py: the text is split on single spaces and the
    words are laid out greedily into lines no wider than the box's inner width,
    as measured by the font. */
module Textbox {
  import opened Seqs

  const TextboxWidth := 400
  const Border := 20
  /** A line is too big when it is wider than the box minus a border on each side. */
  const MaxLineWidth := TextboxWidth - 2 * Border

  /** str.split(' '): the pieces between single spaces, so two spaces in a row give
      an empty word and the empty text gives one empty word. */
  function Split(s: string): (r: seq<string>)
    ensures |r| >= 1
    ensures forall i :: 0 <= i < |r| ==> ' ' !in r[i]
  {
    if s == [] then [""]
    else if s[0] == ' ' then [""] + Split(s[1..])
    else
      var rest := Split(s[1..]);
      [[s[0]] + rest[0]] + rest[1..]
  }

  /** ' '.join(words). */
  function Join(words: seq<string>): string
    requires |words| >= 1
  {
    if |words| == 1 then words[0] else words[0] + " " + Join(words[1..])
  }

  /** Splitting loses nothing: joining the pieces back gives the text. */
  lemma {:induction false} JoinSplit(s: string)
    ensures Join(Split(s)) == s
  {
    if s != [] {
      JoinSplit(s[1..]);
      var rest := Split(s[1..]);
      if s[0] == ' ' {
        assert ([""] + rest)[1..] == rest;
      } else if |rest| > 1 {
        assert ([[s[0]] + rest[0]] + rest[1..])[1..] == rest[1..];
      }
    }
  }

  /** And joining words without spaces, then splitting, gives back the words. */
  lemma {:induction false} SplitJoin(words: seq<string>)
    requires |words| >= 1 && forall i :: 0 <= i < |words| ==> ' ' !in words[i]
    ensures Split(Join(words)) == words
    decreases |Join(words)|, |words[0]|
  {
    var w := words[0];
    if |words| == 1 {
      SplitWord(w);
    } else {
      var rest := words[1..];
      assert forall i :: 0 <= i < |rest| ==> rest[i] == words[i + 1];
      if w == [] {
        assert Join(words) == [' '] + Join(rest);
        SplitJoin(rest);
        assert Split(Join(words)) == [""] + rest;
      } else {
        var shorter := [w[1..]] + rest;
        assert shorter[1..] == rest;
        assert w[0] != ' ' by { assert w[0] in w; }
        assert ' ' !in w[1..] by {
          forall c | c in w[1..] ensures c != ' ' {
            assert c in w;
          }
        }
        assert forall i :: 0 <= i < |shorter| ==> ' ' !in shorter[i];
        assert Join(words) == [w[0]] + Join(shorter);
        SplitJoin(shorter);
        assert w == [w[0]] + w[1..];
        assert words == [w] + rest;
      }
    }
  }

  lemma {:induction false} SplitWord(w: string)
    requires ' ' !in w
    ensures Split(w) == [w]
  {
    if w != [] {
      assert w[0] in w;
      assert forall c :: c in w[1..] ==> c in w;
      SplitWord(w[1..]);
      assert w == [w[0]] + w[1..];
    }
  }

  /** The lines render_text emits for the words still to come, given the pending text
      and the last word of the text: a word is "last" when it equals that word. */
  function Wrap(words: seq<string>, lastWord: string, pending: string, width: string -> nat): seq<string>
  {
    if words == [] then []
    else
      var word, rest := words[0], words[1..];
      var tooBig := width(pending + word + " ") > MaxLineWidth;
      var last := word == lastWord;
      if tooBig && last then [pending, word] + Wrap(rest, lastWord, pending, width)
      else if tooBig then [pending] + Wrap(rest, lastWord, word + " ", width)
      else if last then [pending + word] + Wrap(rest, lastWord, pending, width)
      else Wrap(rest, lastWord, pending + word + " ", width)
  }

  /** The lines of the whole text, the words compared with the text's last word. */
  function Lines(text: string, width: string -> nat): seq<string>
  {
    var words := Split(text);
    Wrap(words, words[|words| - 1], "", width)
  }

  /** Each word emits at most two lines, and a word equal to the last emits one or two. */
  lemma {:induction false} WrapCount(words: seq<string>, lastWord: string, pending: string, width: string -> nat)
    ensures |Wrap(words, lastWord, pending, width)| <= 2 * |words|
    ensures lastWord in words ==> |Wrap(words, lastWord, pending, width)| >= 1
  {
    if words != [] {
      var word, rest := words[0], words[1..];
      var tooBig := width(pending + word + " ") > MaxLineWidth;
      var next := if tooBig && word != lastWord then word + " "
                  else if word == lastWord then pending else pending + word + " ";
      WrapCount(rest, lastWord, next, width);
      assert word != lastWord ==> lastWord in words ==> lastWord in rest;
    }
  }

  /** Every text gives at least one line and at most two per word. */
  lemma LinesCount(text: string, width: string -> nat)
    ensures 1 <= |Lines(text, width)| <= 2 * |Split(text)|
  {
    var words := Split(text);
    WrapCount(words, words[|words| - 1], "", width);
  }

  /** A first word too wide for the box comes after an empty line. */
  lemma WideFirstWord(words: seq<string>, lastWord: string, width: string -> nat)
    requires words != [] && width(words[0] + " ") > MaxLineWidth
    ensures |Wrap(words, lastWord, "", width)| >= 1 && Wrap(words, lastWord, "", width)[0] == ""
  {
    assert "" + words[0] + " " == words[0] + " ";
  }

  /** When only the final word equals the last word, the lines hold the pending text
      and the words with their single spaces, nothing lost and nothing repeated. */
  lemma {:induction false} WrapKeepsText(words: seq<string>, pending: string, width: string -> nat)
    requires |words| >= 1
    requires forall i :: 0 <= i < |words| - 1 ==> words[i] != words[|words| - 1]
    ensures Concat(Wrap(words, words[|words| - 1], pending, width)) == pending + Join(words)
  {
    var word, rest := words[0], words[1..];
    var lastWord := words[|words| - 1];
    var tooBig := width(pending + word + " ") > MaxLineWidth;
    if |words| == 1 {
      if tooBig {
        ConcatCons(pending, [word]);
        ConcatSnoc([], word);
      } else {
        ConcatSnoc([], pending + word);
      }
    } else {
      assert word != lastWord;
      assert rest[|rest| - 1] == lastWord;
      assert forall i :: 0 <= i < |rest| - 1 ==> rest[i] == words[i + 1];
      assert Join(words) == word + " " + Join(rest);
      if tooBig {
        assert Wrap(words, lastWord, pending, width) == [pending] + Wrap(rest, lastWord, word + " ", width);
        WrapKeepsText(rest, word + " ", width);
        ConcatCons(pending, Wrap(rest, lastWord, word + " ", width));
      } else {
        assert Wrap(words, lastWord, pending, width) == Wrap(rest, lastWord, pending + word + " ", width);
        WrapKeepsText(rest, pending + word + " ", width);
      }
    }
  }

  /** Hence a text whose last word appears nowhere earlier is laid out without loss. */
  lemma LinesKeepText(text: string, width: string -> nat)
    requires var words := Split(text);
             forall i :: 0 <= i < |words| - 1 ==> words[i] != words[|words| - 1]
    ensures Concat(Lines(text, width)) == text
  {
    WrapKeepsText(Split(text), "", width);
    JoinSplit(text);
  }

  /** With a repeated last word, the earlier copy is taken for the last: "a a" in a box
      where everything fits is laid out as the lines "a" and "a", whose letters no
      longer spell the text. */
  lemma RepeatedLastWord()
    ensures var narrow := (s: string) => 0;
            Lines("a a", narrow) == ["a", "a"] && Concat(Lines("a a", narrow)) != "a a"
  {
    var narrow := (s: string) => 0;
    assert Split("a a") == ["a", "a"] by {
      assert "a"[1..] == "";
      assert Split("") == [""];
      assert ['a'] + "" == "a";
      assert Split("a") == [['a'] + ""] + [""][1..];
      assert Split("a") == ["a"];
      assert " a"[1..] == "a";
      assert Split(" a") == ["", "a"];
      assert "a a"[1..] == " a";
    }
    assert ["a"][1..] == [];
    assert "" + "a" == "a";
    assert Wrap(["a"], "a", "", narrow) == ["a"];
    assert ["a", "a"][1..] == ["a"];
    assert Wrap(["a", "a"], "a", "", narrow) == ["a"] + Wrap(["a"], "a", "", narrow);
    ConcatSnoc(["a"], "a");
    ConcatSnoc([], "a");
  }

  /** The evident intent: the last word is the one at the end of the list. */
  function WrapByPosition(words: seq<string>, pending: string, width: string -> nat): seq<string>
  {
    if words == [] then []
    else
      var word, rest := words[0], words[1..];
      var tooBig := width(pending + word + " ") > MaxLineWidth;
      var last := rest == [];
      if tooBig && last then [pending, word]
      else if tooBig then [pending] + WrapByPosition(rest, word + " ", width)
      else if last then [pending + word]
      else WrapByPosition(rest, pending + word + " ", width)
  }

  /** Laid out by position, every text survives the wrap, repeated words included. */
  lemma {:induction false} WrapByPositionKeepsText(words: seq<string>, pending: string, width: string -> nat)
    requires |words| >= 1
    ensures Concat(WrapByPosition(words, pending, width)) == pending + Join(words)
  {
    var word, rest := words[0], words[1..];
    var tooBig := width(pending + word + " ") > MaxLineWidth;
    if |words| == 1 {
      if tooBig {
        ConcatCons(pending, [word]);
        ConcatSnoc([], word);
      } else {
        ConcatSnoc([], pending + word);
      }
    } else if tooBig {
      WrapByPositionKeepsText(rest, word + " ", width);
      ConcatCons(pending, WrapByPosition(rest, word + " ", width));
    } else {
      WrapByPositionKeepsText(rest, pending + word + " ", width);
    }
  }

  /** Both layouts agree whenever the last word is not repeated. */
  lemma {:induction false} WrapAgreesByPosition(words: seq<string>, pending: string, width: string -> nat)
    requires |words| >= 1
    requires forall i :: 0 <= i < |words| - 1 ==> words[i] != words[|words| - 1]
    ensures Wrap(words, words[|words| - 1], pending, width) == WrapByPosition(words, pending, width)
  {
    var rest := words[1..];
    if |words| > 1 {
      assert rest[|rest| - 1] == words[|words| - 1];
      assert forall i :: 0 <= i < |rest| - 1 ==> rest[i] == words[i + 1];
      var tooBig := width(pending + words[0] + " ") > MaxLineWidth;
      WrapAgreesByPosition(rest, if tooBig then words[0] + " " else pending + words[0] + " ", width);
    }
  }

  /** Hence, laid out by position, the lines of every text spell the text. */
  lemma RenderedKeepsText(text: string, width: string -> nat)
    ensures Concat(WrapByPosition(Split(text), "", width)) == text
  {
    WrapByPositionKeepsText(Split(text), "", width);
    JoinSplit(text);
  }

  class Textbox {
    const text: string
    /** The rendered lines, top to bottom. */
    var lines: seq<string>

    /** Textbox.__init__ without capitalisation: no lines until render_text runs. */
    constructor (text: string)
      ensures this.text == text && lines == []
    {
      this.text := text;
      lines := [];
    }

    /** Textbox.render_text with the last word taken by its position in the list:
        the lines are rebuilt from scratch, word by word. */
    method RenderText(width: string -> nat)
      modifies this`lines
      ensures lines == WrapByPosition(Split(text), "", width)
      ensures Concat(lines) == text
    {
      lines := [];
      var pending := "";
      var words := Split(text);
      for i := 0 to |words|
        invariant lines + WrapByPosition(words[i..], pending, width) == WrapByPosition(words, "", width)
      {
        assert words[i..][1..] == words[i + 1..];
        var word := words[i];
        var tooBig := width(pending + word + " ") > MaxLineWidth;
        var last := i == |words| - 1;
        if tooBig && last {
          lines := lines + [pending];
          lines := lines + [word];
        } else if tooBig && !last {
          lines := lines + [pending];
          pending := word + " ";
        } else if last && !tooBig {
          lines := lines + [pending + word];
        } else {
          pending := pending + word + " ";
        }
      }
      RenderedKeepsText(text, width);
    }
  }
}
