/** `formatDetailLabel` (app.js:156-161): a hyphenated detail tag becomes a label by
    splitting on "-", capitalising each piece and joining the pieces with spaces. */
module Labels {
  import opened Text

  /** `word.charAt(0).toUpperCase() + word.slice(1)`: only the first character may change,
      and it is no longer a lower-case letter. */
  function Capitalize(word: string): (r: string)
    ensures |r| == |word|
    ensures forall i :: 0 < i < |word| ==> r[i] == word[i]
    ensures |word| > 0 ==> !('a' <= r[0] <= 'z')
    ensures |word| > 0 && 'a' <= word[0] <= 'z' ==> r[0] as int == word[0] as int - 32
    ensures |word| > 0 && !('a' <= word[0] <= 'z') ==> r[0] == word[0]
  {
    if |word| == 0 then "" else [UpperChar(word[0])] + word[1..]
  }

  /** Every piece capitalised: each keeps its length and all but its first character. */
  function CapitalizeAll(words: seq<string>): (r: seq<string>)
    ensures |r| == |words|
    ensures forall i :: 0 <= i < |words| ==> |r[i]| == |words[i]|
    ensures forall i, j :: 0 <= i < |words| && 0 < j < |words[i]| ==> r[i][j] == words[i][j]
  {
    seq(|words|, i requires 0 <= i < |words| => Capitalize(words[i]))
  }

  /** What the label holds at position `i`: a space for a hyphen, the upper-cased
      character at the start of a piece, and the tag's own character elsewhere. */
  function LabelChar(detail: string, i: int): char
    requires 0 <= i < |detail|
  {
    if detail[i] == '-' then ' '
    else if i == 0 || detail[i - 1] == '-' then UpperChar(detail[i])
    else detail[i]
  }

  /** `detail.split("-").map(capitalise).join(" ")`. The label is as long as the tag and
      differs from it only where `LabelChar` says. */
  function FormatDetailLabel(detail: string): (text: string)
    ensures |text| == |detail|
    ensures forall i :: 0 <= i < |detail| ==> text[i] == LabelChar(detail, i)
  {
    SplitMapJoin(detail);
    LabelFromChars(detail, true);
    Join(CapitalizeAll(Split(detail, '-')), ' ')
  }

  /** The label read left to right, `atStart` telling whether a piece begins here. */
  function LabelFrom(s: string, atStart: bool): string {
    if |s| == 0 then ""
    else if s[0] == '-' then " " + LabelFrom(s[1..], true)
    else [if atStart then UpperChar(s[0]) else s[0]] + LabelFrom(s[1..], false)
  }

  /** The pieces with every piece but possibly the first capitalised. */
  function CapitalizeRest(words: seq<string>, capitalizeFirst: bool): seq<string>
    requires |words| >= 1
  {
    [if capitalizeFirst then Capitalize(words[0]) else words[0]] + CapitalizeAll(words[1..])
  }

  lemma JoinConsChar(c: char, w: string, rest: seq<string>, sep: char)
    ensures Join([[c] + w] + rest, sep) == [c] + Join([w] + rest, sep)
  {
    if |rest| > 0 {
      assert ([[c] + w] + rest)[1..] == rest;
      assert ([w] + rest)[1..] == rest;
    }
  }

  /** Splitting, capitalising and joining reads the tag left to right. */
  lemma {:induction false} SplitMapJoinFrom(s: string, atStart: bool)
    ensures Join(CapitalizeRest(Split(s, '-'), atStart), ' ') == LabelFrom(s, atStart)
    decreases |s|
  {
    if |s| == 0 {
    } else if s[0] == '-' {
      SplitMapJoinFrom(s[1..], true);
      HyphenLabel(s, atStart);
    } else {
      SplitMapJoinFrom(s[1..], false);
      LetterLabel(s, atStart);
    }
  }

  /** Both sides of `SplitMapJoinFrom` turn a leading hyphen into a space. */
  lemma HyphenLabel(s: string, atStart: bool)
    requires |s| > 0 && s[0] == '-'
    ensures Join(CapitalizeRest(Split(s, '-'), atStart), ' ') ==
      " " + Join(CapitalizeRest(Split(s[1..], '-'), true), ' ')
    ensures LabelFrom(s, atStart) == " " + LabelFrom(s[1..], true)
  {
    HyphenStep(s, atStart);
    JoinEmptyFirst(CapitalizeRest(Split(s[1..], '-'), true), ' ');
  }

  /** Both sides of `SplitMapJoinFrom` keep a leading letter, upper-cased at a piece's start. */
  lemma LetterLabel(s: string, atStart: bool)
    requires |s| > 0 && s[0] != '-'
    ensures var c := if atStart then UpperChar(s[0]) else s[0];
      && Join(CapitalizeRest(Split(s, '-'), atStart), ' ') ==
           [c] + Join(CapitalizeRest(Split(s[1..], '-'), false), ' ')
      && LabelFrom(s, atStart) == [c] + LabelFrom(s[1..], false)
  {
    var c := if atStart then UpperChar(s[0]) else s[0];
    var rest := CapitalizeRest(Split(s[1..], '-'), false);
    LetterStep(s, atStart);
    JoinConsChar(c, rest[0], rest[1..], ' ');
    HeadTail(rest);
  }

  lemma HeadTail<T>(s: seq<T>)
    requires |s| >= 1
    ensures [s[0]] + s[1..] == s
  {
  }

  lemma JoinEmptyFirst(rest: seq<string>, sep: char)
    requires |rest| >= 1
    ensures Join([""] + rest, sep) == [sep] + Join(rest, sep)
  {
    assert ([""] + rest)[1..] == rest;
  }

  /** A leading hyphen starts a new, capitalised piece. */
  lemma HyphenStep(s: string, atStart: bool)
    requires |s| > 0 && s[0] == '-'
    ensures CapitalizeRest(Split(s, '-'), atStart) == [""] + CapitalizeRest(Split(s[1..], '-'), true)
  {
    var tail := Split(s[1..], '-');
    SplitAtSeparator(s, '-');
    EmptyFirstPiece(tail, atStart);
  }

  lemma EmptyFirstPiece(tail: seq<string>, atStart: bool)
    requires |tail| >= 1
    ensures CapitalizeRest([""] + tail, atStart) == [""] + CapitalizeRest(tail, true)
  {
    assert ([""] + tail)[1..] == tail;
    CapitalizeAllCons(tail);
  }

  lemma CapitalizeAllCons(words: seq<string>)
    requires |words| >= 1
    ensures CapitalizeAll(words) == [Capitalize(words[0])] + CapitalizeAll(words[1..])
  {
  }

  /** A leading letter joins the first piece, upper-cased when it starts the piece. */
  lemma LetterStep(s: string, atStart: bool)
    requires |s| > 0 && s[0] != '-'
    ensures var c := if atStart then UpperChar(s[0]) else s[0];
      var rest := CapitalizeRest(Split(s[1..], '-'), false);
      CapitalizeRest(Split(s, '-'), atStart) == [[c] + rest[0]] + rest[1..]
  {
    var tail := Split(s[1..], '-');
    var first := [s[0]] + tail[0];
    assert Split(s, '-') == [first] + tail[1..];
    assert ([first] + tail[1..])[1..] == tail[1..];
    assert first[1..] == tail[0];
  }

  lemma SplitMapJoin(detail: string)
    ensures Join(CapitalizeAll(Split(detail, '-')), ' ') == LabelFrom(detail, true)
  {
    SplitMapJoinFrom(detail, true);
    CapitalizeAllCons(Split(detail, '-'));
  }

  /** `LabelFrom` changes the characters exactly as `LabelChar` describes. */
  lemma {:induction false} LabelFromChars(s: string, atStart: bool)
    ensures |LabelFrom(s, atStart)| == |s|
    ensures forall i :: 0 < i < |s| ==> LabelFrom(s, atStart)[i] == LabelChar(s, i)
    ensures |s| > 0 && s[0] != '-' && !atStart ==> LabelFrom(s, atStart)[0] == s[0]
    ensures atStart ==> forall i :: 0 <= i < |s| ==> LabelFrom(s, atStart)[i] == LabelChar(s, i)
    decreases |s|
  {
    if |s| > 0 {
      var next := s[0] == '-';
      LabelFromChars(s[1..], next);
      var l := LabelFrom(s, atStart);
      forall i | 0 < i < |s| ensures l[i] == LabelChar(s, i) {
        assert l[i] == LabelFrom(s[1..], next)[i - 1];
        if i - 1 == 0 {
          if next {
            assert LabelFrom(s[1..], next)[0] == LabelChar(s[1..], 0);
          }
        } else {
          assert LabelChar(s[1..], i - 1) == LabelChar(s, i);
        }
      }
    }
  }

  /** A label is pinned down by its characters. */
  lemma LabelIs(detail: string, expected: string)
    requires |expected| == |detail|
    requires forall i :: 0 <= i < |detail| ==> expected[i] == LabelChar(detail, i)
    ensures FormatDetailLabel(detail) == expected
  {
  }

  /** "ad-orientem" becomes "Ad Orientem". */
  lemma AdOrientemLabel()
    ensures FormatDetailLabel("ad-orientem") == "Ad Orientem"
  {
    LabelIs("ad-orientem", "Ad Orientem");
  }

  /** "altar-rail" becomes "Altar Rail". */
  lemma AltarRailLabel()
    ensures FormatDetailLabel("altar-rail") == "Altar Rail"
  {
    LabelIs("altar-rail", "Altar Rail");
  }
}
