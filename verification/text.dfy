/** String helpers with the meaning the JavaScript built-ins give them:
    String.prototype.trim, toLowerCase / toUpperCase (ASCII letters only),
    includes, startsWith, split on one character and Array.prototype.join. */
module Text {

  /** The characters ECMAScript's trim removes: WhiteSpace and LineTerminator. */
  predicate IsSpace(c: char) {
    || c == ' ' || c == '\t' || c == '\n' || c == '\r'
    || c == '\U{000B}' || c == '\U{000C}' || c == '\U{00A0}' || c == '\U{1680}'
    || ('\U{2000}' <= c <= '\U{200A}')
    || c == '\U{2028}' || c == '\U{2029}' || c == '\U{202F}' || c == '\U{205F}'
    || c == '\U{3000}' || c == '\U{FEFF}'
  }

  predicate AllSpace(s: string) {
    forall i :: 0 <= i < |s| ==> IsSpace(s[i])
  }

  /** Number of whitespace characters at the front of `s`. */
  function LeadingSpaces(s: string): (k: nat)
    ensures k <= |s|
    ensures AllSpace(s[..k])
    ensures k < |s| ==> !IsSpace(s[k])
  {
    if |s| > 0 && IsSpace(s[0]) then
      var k := 1 + LeadingSpaces(s[1..]);
      assert s[..k] == [s[0]] + s[1..][..k - 1];
      k
    else 0
  }

  /** Length of `s` once the whitespace at its end is removed. */
  function EndWithoutSpaces(s: string): (e: nat)
    ensures e <= |s|
    ensures AllSpace(s[e..])
    ensures e > 0 ==> !IsSpace(s[e - 1])
  {
    if |s| > 0 && IsSpace(s[|s| - 1]) then
      var e := EndWithoutSpaces(s[..|s| - 1]);
      assert s[e..] == s[..|s| - 1][e..] + [s[|s| - 1]];
      e
    else |s|
  }

  /** String.prototype.trim. */
  function Trim(s: string): (r: string)
    ensures |r| <= |s|
    ensures r == [] <==> AllSpace(s)
    ensures |r| > 0 ==> !IsSpace(r[0]) && !IsSpace(r[|r| - 1])
    ensures Contains(s, r)
  {
    var k := LeadingSpaces(s);
    var t := s[k..];
    var e := EndWithoutSpaces(t);
    assert t[..e] == s[k..k + e];
    assert OccursAt(s, t[..e], k);
    TrimBlank(s, k, e);
    t[..e]
  }

  /** Trimming leaves nothing exactly when every character is whitespace. */
  lemma TrimBlank(s: string, k: nat, e: nat)
    requires k == LeadingSpaces(s) && e == EndWithoutSpaces(s[k..])
    ensures e == 0 <==> AllSpace(s)
  {
    if e == 0 {
      assert s[..k] == s;
    } else {
      assert !IsSpace(s[k]);
    }
  }

  /** The trimmed text of a string that is not all whitespace runs from its first
      non-whitespace character to its last one. */
  lemma TrimBetween(s: string, k: nat, e: nat)
    requires 0 < e && k + e <= |s|
    requires forall i :: 0 <= i < k ==> IsSpace(s[i])
    requires !IsSpace(s[k]) && !IsSpace(s[k + e - 1])
    requires forall i :: k + e <= i < |s| ==> IsSpace(s[i])
    ensures Trim(s) == s[k..k + e]
  {
    var t := s[k..];
    assert t[..e] == s[k..k + e];
  }

  /** ASCII-only String.prototype.toLowerCase on one character. */
  function LowerChar(c: char): char {
    if 'A' <= c <= 'Z' then (c as int - 'A' as int + 'a' as int) as char else c
  }

  /** ASCII-only String.prototype.toUpperCase on one character. */
  function UpperChar(c: char): char {
    if 'a' <= c <= 'z' then (c as int - 'a' as int + 'A' as int) as char else c
  }

  predicate IsUpper(c: char) {
    'A' <= c <= 'Z'
  }

  /** String.prototype.toLowerCase restricted to ASCII: each upper-case letter becomes the
      letter 32 code points later, every other character is kept, and no upper-case letter
      is left. */
  function ToLower(s: string): (r: string)
    ensures |r| == |s|
    ensures forall i :: 0 <= i < |s| && IsUpper(s[i]) ==> r[i] as int == s[i] as int + 32
    ensures forall i :: 0 <= i < |s| && !IsUpper(s[i]) ==> r[i] == s[i]
    ensures forall i :: 0 <= i < |r| ==> !IsUpper(r[i])
  {
    seq(|s|, i requires 0 <= i < |s| => LowerChar(s[i]))
  }

  /** Lower-casing twice is lower-casing once. */
  lemma ToLowerIdempotent(s: string)
    ensures ToLower(ToLower(s)) == ToLower(s)
  {
    var once := ToLower(s);
    assert forall i :: 0 <= i < |once| ==> ToLower(once)[i] == once[i];
  }

  predicate OccursAt(hay: string, needle: string, i: int) {
    0 <= i && i + |needle| <= |hay| && hay[i..i + |needle|] == needle
  }

  /** String.prototype.includes: `needle` occurs somewhere in `hay` (the empty string always does). */
  predicate Contains(hay: string, needle: string) {
    exists i :: 0 <= i <= |hay| - |needle| && OccursAt(hay, needle, i)
  }

  /** String.prototype.startsWith. */
  predicate StartsWith(s: string, prefix: string) {
    |prefix| <= |s| && s[..|prefix|] == prefix
  }

  /** String.prototype.split with a one-character separator: the pieces between separators,
      always at least one (the empty string splits into one empty piece). */
  function Split(s: string, sep: char): (parts: seq<string>)
    ensures |parts| >= 1
  {
    if |s| == 0 then [""]
    else if s[0] == sep then [""] + Split(s[1..], sep)
    else
      var rest := Split(s[1..], sep);
      [[s[0]] + rest[0]] + rest[1..]
  }

  /** No piece of a split contains the separator. */
  lemma {:induction false} SplitPiecesFree(s: string, sep: char)
    ensures forall k :: 0 <= k < |Split(s, sep)| ==> sep !in Split(s, sep)[k]
    decreases |s|
  {
    if |s| > 0 {
      SplitPiecesFree(s[1..], sep);
      var rest := Split(s[1..], sep);
      var parts := Split(s, sep);
      if s[0] == sep {
        forall k | 0 < k < |parts| ensures sep !in parts[k] {
          assert parts[k] == rest[k - 1];
        }
      } else {
        assert sep !in parts[0] by {
          assert parts[0] == [s[0]] + rest[0];
        }
        forall k | 0 < k < |parts| ensures sep !in parts[k] {
          assert parts[k] == rest[k];
        }
      }
    }
  }

  /** The combined length of the pieces. */
  function TotalLength(parts: seq<string>): nat {
    if |parts| == 0 then 0 else |parts[0]| + TotalLength(parts[1..])
  }

  /** Array.prototype.join with a one-character separator: the pieces with one separator
      between neighbours, so the first piece leads and the length is the pieces' total plus
      one per gap. */
  function Join(parts: seq<string>, sep: char): (r: string)
    ensures |parts| == 0 ==> r == ""
    ensures |parts| > 0 ==> |r| == TotalLength(parts) + |parts| - 1
    ensures |parts| > 0 ==> StartsWith(r, parts[0])
    ensures |parts| > 1 ==> r[|parts[0]|] == sep
  {
    if |parts| == 0 then ""
    else if |parts| == 1 then parts[0]
    else parts[0] + [sep] + Join(parts[1..], sep)
  }

  /** A string without the separator is one piece. */
  lemma {:induction false} SplitWithoutSeparator(s: string, sep: char)
    requires sep !in s
    ensures Split(s, sep) == [s]
  {
    if |s| > 0 {
      assert sep !in s[1..] by {
        forall c | c in s[1..] ensures c != sep { assert c in s; }
      }
      SplitWithoutSeparator(s[1..], sep);
      assert [s[0]] + s[1..] == s;
    }
  }

  /** Splitting at a separator splits the two sides independently. */
  lemma {:induction false} SplitConcat(a: string, b: string, sep: char)
    ensures Split(a + [sep] + b, sep) == Split(a, sep) + Split(b, sep)
  {
    var s := a + [sep] + b;
    if |a| == 0 {
      assert s[1..] == b;
    } else {
      assert s[0] == a[0];
      assert s[1..] == a[1..] + [sep] + b;
      SplitConcat(a[1..], b, sep);
      if a[0] != sep {
        ExtendFirstPiece([a[0]], Split(a[1..], sep), Split(b, sep));
      }
    }
  }

  /** Gluing text onto the first piece commutes with appending more pieces. */
  lemma ExtendFirstPiece(x: string, rest: seq<string>, more: seq<string>)
    requires |rest| >= 1
    ensures [x + rest[0]] + rest[1..] + more == [x + (rest + more)[0]] + (rest + more)[1..]
  {
    assert (rest + more)[1..] == rest[1..] + more;
  }

  /** Joining the pieces back with the separator gives the original string. */
  lemma {:induction false} JoinSplit(s: string, sep: char)
    ensures Join(Split(s, sep), sep) == s
  {
    if |s| > 0 {
      JoinSplit(s[1..], sep);
      var rest := Split(s[1..], sep);
      if s[0] == sep {
        assert Split(s, sep) == [""] + rest;
        assert (([""] + rest)[1..]) == rest;
        assert [s[0]] + s[1..] == s;
      } else {
        var parts := Split(s, sep);
        assert parts == [[s[0]] + rest[0]] + rest[1..];
        if |rest| == 1 {
          assert Join(parts, sep) == [s[0]] + rest[0];
        } else {
          assert parts[1..] == rest[1..];
          assert Join(rest, sep) == rest[0] + [sep] + Join(rest[1..], sep);
        }
        assert [s[0]] + s[1..] == s;
      }
    }
  }

  /** Splitting a join of separator-free pieces gives the pieces back. */
  lemma {:induction false} SplitJoin(parts: seq<string>, sep: char)
    requires |parts| >= 1
    requires forall k :: 0 <= k < |parts| ==> sep !in parts[k]
    ensures Split(Join(parts, sep), sep) == parts
  {
    SplitWithoutSeparator(parts[0], sep);
    if |parts| > 1 {
      SplitJoin(parts[1..], sep);
      SplitConcat(parts[0], Join(parts[1..], sep), sep);
      assert [parts[0]] + parts[1..] == parts;
    }
  }

  /** The first piece is the text before the first separator, or all of it. */
  lemma {:induction false} SplitHead(s: string, sep: char)
    ensures sep !in Split(s, sep)[0]
    ensures |Split(s, sep)[0]| <= |s|
    ensures Split(s, sep)[0] == s[..|Split(s, sep)[0]|]
    ensures |Split(s, sep)[0]| == |s| || s[|Split(s, sep)[0]|] == sep
    decreases |s|
  {
    SplitPiecesFree(s, sep);
    if |s| > 0 && s[0] != sep {
      SplitHead(s[1..], sep);
      var h := Split(s[1..], sep)[0];
      assert Split(s, sep)[0] == [s[0]] + h;
      assert s[..|h| + 1] == [s[0]] + s[1..][..|h|];
    }
  }

  /** Joining two lists joins their joins, with one separator between two non-empty sides. */
  lemma {:induction false} JoinAppend(a: seq<string>, b: seq<string>, sep: char)
    ensures Join(a + b, sep) ==
      if |a| == 0 then Join(b, sep)
      else if |b| == 0 then Join(a, sep)
      else Join(a, sep) + [sep] + Join(b, sep)
    decreases |a|
  {
    if |a| == 0 {
      assert a + b == b;
    } else if |b| == 0 {
      assert a + b == a;
    } else if |a| == 1 {
      assert (a + b)[1..] == b;
    } else {
      JoinAppend(a[1..], b, sep);
      assert (a + b)[1..] == a[1..] + b;
      assert (a + b)[0] == a[0];
    }
  }

  /** A leading separator splits off an empty piece. */
  lemma SplitAtSeparator(s: string, sep: char)
    requires |s| > 0 && s[0] == sep
    ensures Split(s, sep) == [""] + Split(s[1..], sep)
  {
  }

  /** A leading piece without the separator splits off on its own. */
  lemma SplitCons(first: string, rest: string, sep: char)
    requires sep !in first
    ensures Split(first + [sep] + rest, sep) == [first] + Split(rest, sep)
  {
    SplitConcat(first, rest, sep);
    SplitWithoutSeparator(first, sep);
  }
}
