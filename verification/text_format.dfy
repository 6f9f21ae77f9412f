/** `formatText` of the details page: a kebab-case API identifier becomes a
    title-cased label (`"charizard-mega-x"` becomes `"Charizard Mega X"`).

    The source chains `replace(/-/g, ' ')`, `split(' ')`, a per-word
    capitalisation and `join(' ')`; `FormatText` follows that chain.
    `TitleCase` is an independent, character-by-character reference, and
    `FormatTextIsTitleCase` proves that the two agree on every input. The
    properties of the label (length, no hyphen, shape of each word,
    idempotence) are proved from the reference. */
module TextFormat {
  import opened Strings

  /** A character that `formatText` turns into a word break. */
  predicate IsBreak(c: char) { c == '-' || c == ' ' }

  /** `replace(/-/g, ' ')`: every hyphen becomes a space. */
  function ReplaceHyphens(s: string): (r: string)
    ensures |r| == |s|
    ensures forall i :: 0 <= i < |s| ==> (r[i] == ' ' <==> IsBreak(s[i]))
    ensures forall i :: 0 <= i < |s| ==> !IsBreak(s[i]) ==> r[i] == s[i]
  {
    if s == [] then [] else [if s[0] == '-' then ' ' else s[0]] + ReplaceHyphens(s[1..])
  }

  /** `word.charAt(0).toUpperCase() + word.slice(1).toLowerCase()`; the empty
      word stays empty. */
  function Capitalize(word: string): (r: string)
  {
    if |word| == 0 then "" else [ToUpper(word[0])] + LowerAll(word[1..])
  }

  /** The per-word `map` of the chain. */
  function CapitalizeAll(words: seq<string>): (r: seq<string>)
    ensures |r| == |words|
  {
    if words == [] then [] else [Capitalize(words[0])] + CapitalizeAll(words[1..])
  }

  /** `formatText` as the source writes it. */
  function FormatText(text: string): (title: string)
  {
    Join(CapitalizeAll(Split(ReplaceHyphens(text), " ")), " ")
  }

  /** Reference definition: spaces are kept, the first character of each
      space-delimited word is upper-cased and every other one lower-cased.
      `atStart` says whether `t` begins a word. */
  function TitleCase(t: string, atStart: bool): (r: string)
    ensures |r| == |t|
  {
    if t == [] then []
    else if t[0] == ' ' then [' '] + TitleCase(t[1..], true)
    else [if atStart then ToUpper(t[0]) else ToLower(t[0])] + TitleCase(t[1..], false)
  }

  /** Whether position `i` of `t` begins a word. */
  predicate StartsWord(t: string, atStart: bool, i: nat)
    requires i < |t|
  {
    if i == 0 then atStart else t[i - 1] == ' '
  }

  /** The reference, one character at a time. */
  lemma {:induction false} TitleCaseAt(t: string, atStart: bool, i: nat)
    requires i < |t|
    ensures TitleCase(t, atStart)[i] ==
      if t[i] == ' ' then ' '
      else if StartsWord(t, atStart, i) then ToUpper(t[i])
      else ToLower(t[i])
    decreases i
  {
    if i > 0 {
      TitleCaseAt(t[1..], t[0] == ' ', i - 1);
    }
  }

  /** On a word without spaces the reference is `Capitalize` (at a word start)
      or plain lower-casing (inside a word). */
  lemma {:induction false} TitleCaseWord(w: string, atStart: bool)
    requires ' ' !in w
    ensures TitleCase(w, atStart) == if atStart then Capitalize(w) else LowerAll(w)
    decreases |w|
  {
    if |w| > 0 {
      TitleCaseWord(w[1..], false);
    }
  }

  /** A space resets the reference to a word start. */
  lemma {:induction false} TitleCaseAfterWord(a: string, b: string, atStart: bool)
    requires ' ' !in a
    ensures TitleCase(a + " " + b, atStart) == TitleCase(a, atStart) + " " + TitleCase(b, true)
    decreases |a|
  {
    if |a| == 0 {
      assert a + " " + b == [' '] + b;
    } else {
      assert (a + " " + b)[1..] == a[1..] + " " + b;
      TitleCaseAfterWord(a[1..], b, false);
    }
  }

  /** Capitalising each space-free word and joining with spaces is the
      reference applied to the joined words. */
  lemma {:induction false} CapitalizedJoin(words: seq<string>)
    requires |words| > 0
    requires forall w <- words :: ' ' !in w
    ensures Join(CapitalizeAll(words), " ") == TitleCase(Join(words, " "), true)
  {
    TitleCaseWord(words[0], true);
    if |words| > 1 {
      CapitalizedJoin(words[1..]);
      TitleCaseAfterWord(words[0], Join(words[1..], " "), true);
      JoinCons(Capitalize(words[0]), CapitalizeAll(words[1..]), " ");
      assert CapitalizeAll(words) == [Capitalize(words[0])] + CapitalizeAll(words[1..]);
    }
  }

  /** The source's chain and the reference agree on every input. */
  lemma FormatTextIsTitleCase(text: string)
    ensures FormatText(text) == TitleCase(ReplaceHyphens(text), true)
  {
    var t := ReplaceHyphens(text);
    SplitPiecesAvoidSeparator(t, " ");
    SplitJoinsBack(t, " ");
    CapitalizedJoin(Split(t, " "));
  }

  /** The label character at position `i` of `text`: a space where the input
      has a hyphen or a space; after a break (or at the start) the input
      character upper-cased, elsewhere lower-cased. */
  function LabelChar(text: string, i: nat): (c: char)
    requires i < |text|
  {
    if IsBreak(text[i]) then ' '
    else if i == 0 || IsBreak(text[i - 1]) then ToUpper(text[i])
    else ToLower(text[i])
  }

  ghost predicate IsLabelOf(text: string, shown: string)
  {
    |shown| == |text| && forall i :: 0 <= i < |text| ==> shown[i] == LabelChar(text, i)
  }

  /** `formatText` is characterised character by character; in particular it
      keeps the length of its input. */
  lemma FormatTextChars(text: string)
    ensures IsLabelOf(text, FormatText(text))
  {
    var t := ReplaceHyphens(text);
    FormatTextIsTitleCase(text);
    forall i | 0 <= i < |text| ensures FormatText(text)[i] == LabelChar(text, i)
    {
      TitleCaseAt(t, true, i);
    }
  }

  /** Case mapping neither creates nor removes a word break. */
  lemma CaseKeepsBreaks(c: char)
    ensures IsBreak(ToUpper(c)) <==> IsBreak(c)
    ensures IsBreak(ToLower(c)) <==> IsBreak(c)
  {
  }

  /** A character of a label is a break exactly where its input has one. */
  lemma LabelKeepsBreaks(text: string, shown: string, i: nat)
    requires IsLabelOf(text, shown) && i < |text|
    ensures IsBreak(shown[i]) <==> IsBreak(text[i])
    ensures shown[i] != '-'
  {
    CaseKeepsBreaks(text[i]);
  }

  /** Every hyphen is gone from the label. */
  lemma FormatTextHasNoHyphen(text: string)
    ensures '-' !in FormatText(text)
  {
    FormatTextChars(text);
    var shown := FormatText(text);
    forall i | 0 <= i < |shown| ensures shown[i] != '-' {
      LabelKeepsBreaks(text, shown, i);
    }
  }

  /** An upper-cased first character followed by lower-cased characters. */
  predicate IsTitleWord(w: string)
  {
    |w| == 0 || (!IsLower(w[0]) && forall j :: 1 <= j < |w| ==> !IsUpper(w[j]))
  }

  lemma CapitalizeShape(w: string)
    ensures IsTitleWord(Capitalize(w))
    ensures |Capitalize(w)| == |w|
    ensures ' ' !in w ==> ' ' !in Capitalize(w)
  {
    if |w| > 0 {
      var c := Capitalize(w);
      assert forall j :: 1 <= j < |w| ==> c[j] == ToLower(w[j]);
    }
  }

  /** Splitting the label on spaces gives the capitalised words, one per
      space-delimited word of the hyphen-replaced input (empty words
      included), and each of them is title-shaped. */
  lemma {:induction false} FormatTextWords(text: string)
    ensures Split(FormatText(text), " ") == CapitalizeAll(Split(ReplaceHyphens(text), " "))
    ensures forall w <- Split(FormatText(text), " ") :: IsTitleWord(w)
  {
    var words := Split(ReplaceHyphens(text), " ");
    SplitPiecesAvoidSeparator(ReplaceHyphens(text), " ");
    CapitalizedWordsAvoidSpaces(words);
    SplitJoin(CapitalizeAll(words), " ");
  }

  lemma {:induction false} CapitalizedWordsAvoidSpaces(words: seq<string>)
    requires forall w <- words :: ' ' !in w
    ensures forall w <- CapitalizeAll(words) :: ' ' !in w && IsTitleWord(w)
  {
    if words != [] {
      CapitalizeShape(words[0]);
      CapitalizedWordsAvoidSpaces(words[1..]);
    }
  }

  /** A label of a label is the label itself. */
  lemma RelabelIsIdentity(text: string, shown: string, again: string)
    requires IsLabelOf(text, shown) && IsLabelOf(shown, again)
    ensures again == shown
  {
    forall i | 0 <= i < |shown| ensures again[i] == shown[i] {
      LabelKeepsBreaks(text, shown, i);
      if i > 0 {
        LabelKeepsBreaks(text, shown, i - 1);
      }
      assert again[i] == LabelChar(shown, i);
    }
  }

  /** Formatting a label again changes nothing. */
  lemma FormatTextIdempotent(text: string)
    ensures FormatText(FormatText(text)) == FormatText(text)
  {
    FormatTextChars(text);
    FormatTextChars(FormatText(text));
    RelabelIsIdentity(text, FormatText(text), FormatText(FormatText(text)));
  }
}
