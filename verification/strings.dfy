/** String operations of the JavaScript runtime that the pages rely on,
    restricted to ASCII case mapping: `toUpperCase`, `toLowerCase`,
    `Array.prototype.join`, `String.prototype.split` with a string separator
    and `String.prototype.padStart`. */
module Strings {

  predicate IsUpper(c: char) { 'A' <= c <= 'Z' }
  predicate IsLower(c: char) { 'a' <= c <= 'z' }

  /** `toUpperCase` on one ASCII character; every other character is kept. */
  function ToUpper(c: char): (u: char)
    ensures IsLower(c) ==> IsUpper(u) && ToLower(u) == c
    ensures !IsLower(c) ==> u == c
  {
    if IsLower(c) then (c as int - 32) as char else c
  }

  /** `toLowerCase` on one ASCII character; every other character is kept. */
  function ToLower(c: char): (l: char)
    ensures IsUpper(c) ==> IsLower(l)
    ensures !IsUpper(c) ==> l == c
  {
    if IsUpper(c) then (c as int + 32) as char else c
  }

  /** `toLowerCase` on a whole string. */
  function LowerAll(s: string): (r: string)
    ensures |r| == |s|
    ensures forall i :: 0 <= i < |s| ==> r[i] == ToLower(s[i])
  {
    seq(|s|, i requires 0 <= i < |s| => ToLower(s[i]))
  }

  /** `parts.join(sep)`: the parts with `sep` between neighbours. */
  function Join(parts: seq<string>, sep: string): (joined: string)
  {
    if |parts| == 0 then ""
    else if |parts| == 1 then parts[0]
    else parts[0] + sep + Join(parts[1..], sep)
  }

  /** `s.split(sep)` for a non-empty string separator: occurrences are found
      left to right without overlap, and empty pieces are kept, so the
      result always has at least one piece (`SplitJoinsBack`: joining it
      back gives `s`). */
  function Split(s: string, sep: string): (parts: seq<string>)
    requires |sep| > 0
    ensures |parts| > 0
    decreases |s|
  {
    if |s| == 0 then [""]
    else if sep <= s then [""] + Split(s[|sep|..], sep)
    else
      var rest := Split(s[1..], sep);
      [[s[0]] + rest[0]] + rest[1..]
  }

  /** Joining the pieces of a split with its separator gives back the input. */
  lemma {:induction false} SplitJoinsBack(s: string, sep: string)
    requires |sep| > 0
    ensures Join(Split(s, sep), sep) == s
    decreases |s|
  {
    if |s| > 0 {
      SplitStep(s, sep);
      if sep <= s {
        var tail := s[|sep|..];
        SplitJoinsBack(tail, sep);
        JoinAfterEmpty(Split(tail, sep), sep);
        PrefixThenRest(sep, s);
      } else {
        SplitJoinsBack(s[1..], sep);
        JoinExtendFirst(s[0], Split(s[1..], sep), sep);
        assert s == [s[0]] + s[1..];
      }
    }
  }

  /** One step of `Split` on a non-empty input. */
  lemma SplitStep(s: string, sep: string)
    requires |sep| > 0 && |s| > 0
    ensures sep <= s ==> Split(s, sep) == [""] + Split(s[|sep|..], sep)
    ensures !(sep <= s) ==>
      Split(s, sep) == [[s[0]] + Split(s[1..], sep)[0]] + Split(s[1..], sep)[1..]
  {
  }

  /** An empty first part contributes only the separator. */
  lemma JoinAfterEmpty(rest: seq<string>, sep: string)
    requires |rest| > 0
    ensures Join([""] + rest, sep) == sep + Join(rest, sep)
  {
    JoinCons("", rest, sep);
    EmptyThenRest(sep + Join(rest, sep));
  }

  lemma EmptyThenRest(x: string)
    ensures "" + x == x
  {
  }

  lemma PrefixThenRest(p: string, s: string)
    requires p <= s
    ensures s == p + s[|p|..]
  {
  }

  /** Putting a character in front of the first part puts it in front of the join. */
  lemma JoinExtendFirst(c: char, parts: seq<string>, sep: string)
    requires |parts| > 0
    ensures Join([[c] + parts[0]] + parts[1..], sep) == [c] + Join(parts, sep)
  {
    JoinCons([c] + parts[0], parts[1..], sep);
    JoinCons(parts[0], parts[1..], sep);
    assert [parts[0]] + parts[1..] == parts;
  }

  /** Joining a part in front of others puts one separator between them. */
  lemma JoinCons(first: string, rest: seq<string>, sep: string)
    ensures Join([first] + rest, sep) == if rest == [] then first else first + sep + Join(rest, sep)
  {
    assert ([first] + rest)[1..] == rest;
  }

  /** With a one-character separator no piece contains the separator. */
  lemma {:induction false} SplitPiecesAvoidSeparator(s: string, sep: string)
    requires |sep| == 1
    ensures forall p <- Split(s, sep) :: sep[0] !in p
    decreases |s|
  {
    if |s| == 0 {
    } else if sep <= s {
      SplitPiecesAvoidSeparator(s[|sep|..], sep);
    } else {
      SplitPiecesAvoidSeparator(s[1..], sep);
      assert s[0] != sep[0];
    }
  }

  /** A piece that does not contain the separator's first character is not split. */
  lemma {:induction false} SplitWithoutSeparator(w: string, sep: string)
    requires |sep| > 0 && sep[0] !in w
    ensures Split(w, sep) == [w]
    decreases |w|
  {
    if |w| > 0 {
      assert !(sep <= w);
      SplitWithoutSeparator(w[1..], sep);
      assert [w[0]] + w[1..] == w;
    }
  }

  /** Splitting `a + sep + b` stops at the separator right after `a`. */
  lemma {:induction false} SplitAfterPiece(a: string, b: string, sep: string)
    requires |sep| > 0 && sep[0] !in a
    ensures Split(a + sep + b, sep) == [a] + Split(b, sep)
    decreases |a|
  {
    var s := a + sep + b;
    if |a| == 0 {
      assert s == sep + b;
      assert sep <= s;
      assert s[|sep|..] == b;
    } else {
      assert s[0] == a[0] && a[0] != sep[0];
      assert !(sep <= s);
      assert s[1..] == a[1..] + sep + b;
      SplitAfterPiece(a[1..], b, sep);
      assert [a[0]] + a[1..] == a;
    }
  }

  /** Round trip: splitting a join gives the parts back when no part
      contains the separator's first character. */
  lemma {:induction false} SplitJoin(parts: seq<string>, sep: string)
    requires |sep| > 0 && |parts| > 0
    requires forall p <- parts :: sep[0] !in p
    ensures Split(Join(parts, sep), sep) == parts
  {
    if |parts| == 1 {
      SplitWithoutSeparator(parts[0], sep);
    } else {
      SplitJoin(parts[1..], sep);
      SplitAfterPiece(parts[0], Join(parts[1..], sep), sep);
      assert [parts[0]] + parts[1..] == parts;
    }
  }

  /** `count` copies of `c`. */
  function Repeat(c: char, count: nat): (r: string)
    ensures |r| == count && forall i :: 0 <= i < count ==> r[i] == c
  {
    if count == 0 then [] else [c] + Repeat(c, count - 1)
  }

  /** `s.padStart(width, fill)`: `fill` is prepended until the length reaches
      `width`; a string already that long is returned unchanged. */
  function PadStart(s: string, width: nat, fill: char): (r: string)
    ensures |r| == if |s| >= width then |s| else width
    ensures r == Repeat(fill, |r| - |s|) + s
  {
    if |s| >= width then s else Repeat(fill, width - |s|) + s
  }
}
