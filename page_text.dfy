/**
 * The two string helpers of js/main.js outside the carousel: the scroll-spy's
 * href-to-id strip and the copy buttons' whitespace normalisation.
 */
module PageText {
  import opened Wrappers

  /**
   * The characters JavaScript's `\s` matches; `String.prototype.trim` removes the same
   * set (WhiteSpace and LineTerminator of the ECMAScript grammar).
   */
  predicate IsSpace(ch: char) {
    ch in WHITESPACE
  }

  const WHITESPACE: set<char> := {
    '\t', '\n', '\U{B}', '\U{C}', '\r', ' ', '\U{A0}', '\U{1680}',
    '\U{2000}', '\U{2001}', '\U{2002}', '\U{2003}', '\U{2004}', '\U{2005}',
    '\U{2006}', '\U{2007}', '\U{2008}', '\U{2009}', '\U{200A}',
    '\U{2028}', '\U{2029}', '\U{202F}', '\U{205F}', '\U{3000}', '\U{FEFF}'
  }

  // ---------------------------------------------------------------------------
  // Scroll-spy: which navigation link names a section
  // ---------------------------------------------------------------------------

  /** `link.getAttribute('href') || ''`, then one leading `#` dropped. */
  function HrefToId(href: Option<string>): string {
    var h := if href.Some? then href.value else "";
    if |h| > 0 && h[0] == '#' then h[1..] else h
  }

  /** The scroll-spy gives a link `is-active` when its stripped href is the section's id. */
  predicate LinkActive(href: Option<string>, sectionId: string) {
    HrefToId(href) == sectionId
  }

  /**
   * A link is active for a section exactly when its href is `#` followed by the id, or
   * is the id itself and does not start with `#`; a link without href counts as `""`.
   */
  lemma LinkActiveIff(href: Option<string>, sectionId: string)
    ensures var h := if href.Some? then href.value else "";
      LinkActive(href, sectionId) <==>
        h == "#" + sectionId || (h == sectionId && (h == "" || h[0] != '#'))
  {
    var h := if href.Some? then href.value else "";
    if |h| > 0 && h[0] == '#' {
      assert h == "#" + h[1..];
    }
  }

  // ---------------------------------------------------------------------------
  // Copy buttons: `value.replace(/\s+/g, ' ').trim()`
  // ---------------------------------------------------------------------------

  /** The suffix left once the leading whitespace is gone. */
  function DropSpaces(s: string): (r: string)
    ensures |r| <= |s|
    ensures s != [] && IsSpace(s[0]) ==> |r| < |s|
    ensures r == [] || !IsSpace(r[0])
  {
    if s != [] && IsSpace(s[0]) then DropSpaces(s[1..]) else s
  }

  /** `replace(/\s+/g, ' ')`: every maximal run of whitespace becomes a single space. */
  function Collapse(s: string): string
    decreases |s|
  {
    if s == [] then []
    else if IsSpace(s[0]) then [' '] + Collapse(DropSpaces(s))
    else [s[0]] + Collapse(s[1..])
  }

  /** Trailing whitespace removed. */
  function TrimEnd(s: string): string {
    if s != [] && IsSpace(s[|s| - 1]) then TrimEnd(s[..|s| - 1]) else s
  }

  /** `String.prototype.trim`. */
  function Trim(s: string): string {
    TrimEnd(DropSpaces(s))
  }

  /** The text a copy button puts on the clipboard for a `data-copy` value. */
  function NormalizeCopyText(value: string): string {
    Trim(Collapse(value))
  }

  /**
   * A click on a copy button: `getAttribute('data-copy') || ''`; an empty value copies
   * nothing, any other value is copied normalised.
   */
  function CopyPayload(attr: Option<string>): Option<string> {
    var value := if attr.Some? then attr.value else "";
    if value == "" then None else Some(NormalizeCopyText(value))
  }

  // ---------------------------------------------------------------------------
  // Reference definition: the words of a text, joined by one space
  // ---------------------------------------------------------------------------

  /** A non-empty run of non-whitespace characters. */
  predicate IsWord(w: string) {
    w != [] && forall i :: 0 <= i < |w| ==> !IsSpace(w[i])
  }

  /** The longest prefix without whitespace. */
  function TakeWord(s: string): (w: string)
    ensures |w| <= |s|
    ensures s != [] && !IsSpace(s[0]) ==> |w| > 0
  {
    if s != [] && !IsSpace(s[0]) then [s[0]] + TakeWord(s[1..]) else []
  }

  /** The words of `s`, in order: what whitespace separates. */
  function Words(s: string): seq<string>
    decreases |s|
  {
    var t := DropSpaces(s);
    if t == [] then [] else
      var w := TakeWord(t);
      [w] + Words(t[|w|..])
  }

  /** Words put back together with one space between neighbours. */
  function Join(ws: seq<string>): string {
    if |ws| == 0 then ""
    else if |ws| == 1 then ws[0]
    else ws[0] + " " + Join(ws[1..])
  }

  /** A text with no whitespace at either end, no whitespace but plain spaces, and never two in a row. */
  predicate Normalized(r: string) {
    && (r != [] ==> !IsSpace(r[0]) && !IsSpace(r[|r| - 1]))
    && (forall i :: 0 <= i < |r| && IsSpace(r[i]) ==> r[i] == ' ')
    && (forall i :: 0 <= i < |r| - 1 ==> !(IsSpace(r[i]) && IsSpace(r[i + 1])))
  }

  /** What `DropSpaces` removes is whitespace, and what it keeps is a suffix. */
  lemma {:induction false} DropSpacesSuffix(s: string)
    ensures DropSpaces(s) == s[|s| - |DropSpaces(s)|..]
    ensures forall i :: 0 <= i < |s| - |DropSpaces(s)| ==> IsSpace(s[i])
    decreases |s|
  {
    if s != [] && IsSpace(s[0]) {
      DropSpacesSuffix(s[1..]);
    }
  }

  /** `TakeWord` takes a prefix free of whitespace, and stops only at whitespace or at the end. */
  lemma {:induction false} TakeWordSpec(s: string)
    ensures TakeWord(s) == s[..|TakeWord(s)|]
    ensures forall i :: 0 <= i < |TakeWord(s)| ==> !IsSpace(s[i])
    ensures |TakeWord(s)| < |s| ==> IsSpace(s[|TakeWord(s)|])
    decreases |s|
  {
    if s != [] && !IsSpace(s[0]) {
      TakeWordSpec(s[1..]);
    }
  }

  lemma {:induction false} WordsAreWords(s: string)
    ensures forall i :: 0 <= i < |Words(s)| ==> IsWord(Words(s)[i])
    decreases |s|
  {
    var t := DropSpaces(s);
    if t != [] {
      var w := TakeWord(t);
      TakeWordSpec(t);
      WordsAreWords(t[|w|..]);
    }
  }

  lemma DropSpacesIdempotent(s: string)
    ensures DropSpaces(DropSpaces(s)) == DropSpaces(s)
    ensures Words(DropSpaces(s)) == Words(s)
  {
  }

  /** Collapsing a text that starts with a word: that word, then the collapse of the rest. */
  lemma {:induction false} CollapseTakeWord(t: string)
    ensures Collapse(t) == TakeWord(t) + Collapse(t[|TakeWord(t)|..])
    decreases |t|
  {
    if t != [] && !IsSpace(t[0]) {
      CollapseTakeWord(t[1..]);
      assert t[1..][|TakeWord(t[1..])|..] == t[|TakeWord(t)|..];
    }
  }

  lemma Regroup(a: string, b: string, c: string, d: string)
    ensures a + (b + (c + d)) == (a + b + c) + d
  {
  }

  lemma JoinCons(w: string, ws: seq<string>)
    requires ws != []
    ensures Join([w] + ws) == w + " " + Join(ws)
  {
    assert ([w] + ws)[1..] == ws;
  }

  /**
   * Collapsing a text that does not start with whitespace gives its joined words,
   * followed by one space when the text ended in whitespace.
   */
  lemma {:induction false} CollapseFromWord(t: string)
    requires t == [] || !IsSpace(t[0])
    ensures Collapse(t) == Join(Words(t)) + (if t != [] && IsSpace(t[|t| - 1]) then " " else "")
    decreases |t|
  {
    if t != [] {
      var w := TakeWord(t);
      var rest := t[|w|..];
      CollapseTakeWord(t);
      TakeWordSpec(t);
      assert Collapse(t) == w + Collapse(rest);
      assert Words(t) == [w] + Words(rest);
      if rest == [] {
        assert Collapse(t) == w && Join(Words(t)) == w;
        assert t == w;
        assert !IsSpace(t[|t| - 1]);
      } else {
        var u := DropSpaces(rest);
        assert Collapse(rest) == " " + Collapse(u);
        DropSpacesIdempotent(rest);
        DropSpacesSuffix(rest);
        assert Words(t) == [w] + Words(u);
        if u == [] {
          assert Collapse(t) == w + " " && Join(Words(t)) == w;
          assert IsSpace(t[|t| - 1]);
        } else {
          CollapseFromWord(u);
          JoinCons(w, Words(u));
          var tail: string := if IsSpace(u[|u| - 1]) then " " else "";
          var collapsed, joined := Collapse(u), Join(Words(u));
          assert collapsed == joined + tail;
          assert Collapse(t) == w + (" " + collapsed);
          Regroup(w, " ", joined, tail);
          assert t[|t| - 1] == u[|u| - 1];
        }
      }
    }
  }

  /** The joined words of any text start and end with a non-space character. */
  lemma {:induction false} JoinEnds(ws: seq<string>)
    requires forall i :: 0 <= i < |ws| ==> IsWord(ws[i])
    ensures ws == [] <==> Join(ws) == []
    ensures Join(ws) != [] ==> !IsSpace(Join(ws)[0]) && !IsSpace(Join(ws)[|Join(ws)| - 1])
  {
    if |ws| > 1 {
      JoinEnds(ws[1..]);
      assert Join(ws) == ws[0] + (" " + Join(ws[1..]));
    }
  }

  lemma TrimEndSpace(x: string)
    ensures TrimEnd(x + " ") == TrimEnd(x)
  {
    assert (x + " ")[..|x + " "| - 1] == x;
  }

  /** The copy text is the input's words joined by single spaces. */
  lemma NormalizeIsJoinedWords(s: string)
    ensures NormalizeCopyText(s) == Join(Words(s))
  {
    var t := DropSpaces(s);
    DropSpacesIdempotent(s);
    CollapseFromWord(t);
    WordsAreWords(s);
    JoinEnds(Words(s));
    var j := Join(Words(s));
    var tail: string := if t != [] && IsSpace(t[|t| - 1]) then " " else "";
    assert Collapse(t) == j + tail;
    if s != [] && IsSpace(s[0]) {
      assert Collapse(s) == " " + Collapse(t);
      assert DropSpaces(" " + (j + tail)) == DropSpaces(j + tail);
    } else {
      assert t == s;
    }
    if j == [] {
      assert Words(t) == [];
      assert t == [];
    } else {
      assert DropSpaces(j + tail) == j + tail;
      TrimEndSpace(j);
    }
  }

  /** Words joined by one space are normalised. */
  lemma {:induction false} JoinNormalized(ws: seq<string>)
    requires forall i :: 0 <= i < |ws| ==> IsWord(ws[i])
    ensures Normalized(Join(ws))
  {
    JoinEnds(ws);
    if |ws| > 1 {
      JoinNormalized(ws[1..]);
      JoinEnds(ws[1..]);
      var w, r := ws[0], Join(ws[1..]);
      var j := w + " " + r;
      assert Join(ws) == j;
      forall i | 0 <= i < |j| - 1
        ensures !(IsSpace(j[i]) && IsSpace(j[i + 1]))
      {
        if i + 1 < |w| {
        } else if i + 1 == |w| {
          assert j[i] == w[i];
        } else if i == |w| {
          assert j[i + 1] == r[0];
        } else {
          assert j[i] == r[i - |w| - 1] && j[i + 1] == r[i - |w|];
        }
      }
      forall i | 0 <= i < |j| && IsSpace(j[i])
        ensures j[i] == ' '
      {
        if i > |w| {
          assert j[i] == r[i - |w| - 1];
        }
      }
    }
  }

  /** Splitting words joined by one space gives the same words back. */
  lemma {:induction false} WordsOfJoin(ws: seq<string>)
    requires forall i :: 0 <= i < |ws| ==> IsWord(ws[i])
    ensures Words(Join(ws)) == ws
  {
    if ws != [] {
      var w := ws[0];
      JoinEnds(ws);
      if |ws| == 1 {
        TakeWordOfWord(w, "");
        assert w + "" == w;
        assert w[|w|..] == [];
      } else {
        var r := Join(ws[1..]);
        JoinEnds(ws[1..]);
        WordsOfJoin(ws[1..]);
        TakeWordOfWord(w, " " + r);
        assert Join(ws) == w + (" " + r);
        assert (w + (" " + r))[|w|..] == " " + r;
        assert DropSpaces(" " + r) == r;
        DropSpacesIdempotent(" " + r);
      }
    }
  }

  lemma {:induction false} TakeWordOfWord(w: string, rest: string)
    requires forall i :: 0 <= i < |w| ==> !IsSpace(w[i])
    requires rest == [] || IsSpace(rest[0])
    ensures TakeWord(w + rest) == w
    decreases |w|
  {
    if w != [] {
      TakeWordOfWord(w[1..], rest);
      assert (w + rest)[1..] == w[1..] + rest;
    } else {
      assert w + rest == rest;
    }
  }

  /**
   * The copy text never starts or ends with whitespace, holds no whitespace but plain
   * spaces and never two in a row, keeps the input's words in order, and normalising
   * it again changes nothing.
   */
  lemma NormalizeProperties(s: string)
    ensures Normalized(NormalizeCopyText(s))
    ensures Words(NormalizeCopyText(s)) == Words(s)
    ensures NormalizeCopyText(NormalizeCopyText(s)) == NormalizeCopyText(s)
  {
    NormalizeIsJoinedWords(s);
    WordsAreWords(s);
    JoinNormalized(Words(s));
    WordsOfJoin(Words(s));
    NormalizeIsJoinedWords(NormalizeCopyText(s));
  }

  /** A copy happens exactly when `data-copy` is present and not empty; what is copied is the joined words. */
  lemma CopyPayloadIff(attr: Option<string>)
    ensures CopyPayload(attr) == None <==> attr == None || attr == Some("")
    ensures CopyPayload(attr).Some? ==> CopyPayload(attr).value == Join(Words(attr.value))
  {
    if attr.Some? {
      NormalizeIsJoinedWords(attr.value);
    }
  }
}
