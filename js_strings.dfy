/**
 * The JavaScript string built-ins the screens rely on, written out on
 * `seq<char>`: `toLowerCase` (ASCII letters only), `split(' ')`, `join`,
 * `includes`, `trim`, and a global regular-expression replace of a
 * two-character sequence by one character.
 */
module JsStrings {
  import Seqs

  const Capitals := "ABCDEFGHIJKLMNOPQRSTUVWXYZ"
  const Smalls := "abcdefghijklmnopqrstuvwxyz"

  /** `c` and `d` are the same character, or the capital and the small form of one ASCII letter. */
  predicate SameIgnoringCase(c: char, d: char) {
    c == d
    || exists i | 0 <= i < 26 :: (c == Capitals[i] && d == Smalls[i]) || (c == Smalls[i] && d == Capitals[i])
  }

  /** `toLowerCase` on one character; only 'A'..'Z' are folded. */
  function LowerChar(c: char): char {
    if 'A' <= c <= 'Z' then (c as int + 32) as char else c
  }

  /** `s.toLowerCase()`, character by character. */
  function Lower(s: string): (r: string)
    ensures |r| == |s|
  {
    seq(|s|, i requires 0 <= i < |s| => LowerChar(s[i]))
  }

  /** `s.split(' ')`: the pieces between single spaces; two adjacent spaces give an empty piece. */
  function Split(s: string): (r: seq<string>)
    ensures |r| >= 1
    ensures forall k :: 0 <= k < |r| ==> ' ' !in r[k]
    decreases |s|
  {
    if s == [] then [""]
    else
      var rest := Split(s[1..]);
      if s[0] == ' ' then [""] + rest
      else [[s[0]] + rest[0]] + rest[1..]
  }

  /** `parts.join(sep)`; the empty list joins to "". */
  function Join(parts: seq<string>, sep: string): (r: string)
    ensures parts != [] ==> |parts[0]| <= |r| && r[..|parts[0]|] == parts[0]
    decreases |parts|
  {
    if parts == [] then ""
    else if |parts| == 1 then parts[0]
    else parts[0] + sep + Join(parts[1..], sep)
  }

  /** `term` occurs in `text` starting at index `i`. */
  predicate OccursAt(text: string, term: string, i: int) {
    0 <= i <= |text| - |term| && text[i..i + |term|] == term
  }

  /** `text.includes(term)`: `term` occurs in `text` as a contiguous block. */
  predicate Includes(text: string, term: string)
    ensures Includes(text, term) ==> |term| <= |text|
    ensures term == text ==> Includes(text, term)
  {
    assert OccursAt(text, text, 0);
    exists i | 0 <= i <= |text| - |term| :: OccursAt(text, term, i)
  }

  /** The characters `trim` removes: ECMAScript WhiteSpace and LineTerminator. */
  predicate IsJsWhitespace(c: char) {
    var n := c as int;
    n == 0x09 || n == 0x0A || n == 0x0B || n == 0x0C || n == 0x0D || n == 0x20
    || n == 0xA0 || n == 0x1680 || (0x2000 <= n <= 0x200A) || n == 0x2028
    || n == 0x2029 || n == 0x202F || n == 0x205F || n == 0x3000 || n == 0xFEFF
  }

  /** No whitespace at either end. */
  predicate IsTrimmed(s: string) {
    s == [] || (!IsJsWhitespace(s[0]) && !IsJsWhitespace(s[|s| - 1]))
  }

  function TrimStart(s: string): (r: string)
    ensures |r| <= |s| && r == s[|s| - |r|..]
    ensures forall k :: 0 <= k < |s| - |r| ==> IsJsWhitespace(s[k])
    ensures r == [] || !IsJsWhitespace(r[0])
    decreases |s|
  {
    if s != [] && IsJsWhitespace(s[0]) then TrimStart(s[1..]) else s
  }

  function TrimEnd(s: string): (r: string)
    ensures |r| <= |s| && r == s[..|r|]
    ensures forall k :: |r| <= k < |s| ==> IsJsWhitespace(s[k])
    ensures r == [] || !IsJsWhitespace(r[|r| - 1])
    decreases |s|
  {
    if s != [] && IsJsWhitespace(s[|s| - 1]) then TrimEnd(s[..|s| - 1]) else s
  }

  /** `r` is the block of `s` at `i`, and all of `s` outside it is whitespace. */
  predicate SurroundedByWhitespace(s: string, r: string, i: int) {
    && 0 <= i <= |s| - |r| && r == s[i..i + |r|]
    && (forall k :: 0 <= k < i ==> IsJsWhitespace(s[k]))
    && (forall k :: i + |r| <= k < |s| ==> IsJsWhitespace(s[k]))
  }

  /**
   * `s.trim()`: what is left after dropping whitespace at both ends; it
   * starts and ends with a non-whitespace character. `TrimDropsOnlyWhitespace`
   * shows that it is a block of `s` with only whitespace around it.
   */
  function Trim(s: string): (r: string)
    ensures IsTrimmed(r)
    ensures |r| <= |s|
  {
    TrimEnd(TrimStart(s))
  }

  /** What `trim` removes is whitespace, and what it keeps is one block of the input. */
  lemma TrimDropsOnlyWhitespace(s: string)
    ensures exists i :: SurroundedByWhitespace(s, Trim(s), i)
    ensures forall c :: c in Trim(s) ==> c in s
  {
    var t := TrimStart(s);
    var r := TrimEnd(t);
    assert r == Trim(s);
    var i := |s| - |t|;
    assert t == s[i..];
    assert r == t[..|r|];
    forall k | i + |r| <= k < |s|
      ensures IsJsWhitespace(s[k])
    {
      assert s[k] == t[k - i];
    }
    BlockOf(s, t, i, r);
    assert SurroundedByWhitespace(s, r, i);
  }

  /** A prefix `r` of the suffix `t` of `s` from `i` is the block of `s` at `i`, and takes its characters from `s`. */
  lemma BlockOf(s: string, t: string, i: int, r: string)
    requires 0 <= i <= |s| && t == s[i..] && |r| <= |t| && r == t[..|r|]
    ensures r == s[i..i + |r|]
    ensures forall c :: c in r ==> c in s
  {
    forall c | c in r
      ensures c in s
    {
      var j :| 0 <= j < |r| && r[j] == c;
      assert s[i + j] == c;
    }
  }

  /**
   * `s.replace(/ab/g, rep)` for the two-character pattern `a` `b`: matches
   * are found left to right without overlap and each becomes `rep`.
   */
  function ReplacePair(s: string, a: char, b: char, rep: char): (r: string)
    ensures |r| <= |s|
    decreases |s|
  {
    if |s| >= 2 && s[0] == a && s[1] == b then [rep] + ReplacePair(s[2..], a, b, rep)
    else if s == [] then []
    else [s[0]] + ReplacePair(s[1..], a, b, rep)
  }

  /** `a` directly followed by `b` in `s` at index `i`. */
  predicate PairAt(s: string, a: char, b: char, i: int) {
    0 <= i < |s| - 1 && s[i] == a && s[i + 1] == b
  }

  /** `a` directly followed by `b` somewhere in `s`. */
  predicate HasPair(s: string, a: char, b: char) {
    exists i | 0 <= i < |s| - 1 :: PairAt(s, a, b, i)
  }

  /** `s.replace(/c/g, '')`. */
  function DeleteChar(s: string, c: char): (r: string)
    ensures c !in r
    ensures |r| <= |s|
    decreases |s|
  {
    if s == [] then []
    else (if s[0] == c then [] else [s[0]]) + DeleteChar(s[1..], c)
  }

  // ---- split / join ----

  /** Joining a first piece onto at least one more puts the separator between them. */
  lemma JoinCons(head: string, tail: seq<string>, sep: string)
    requires tail != []
    ensures Join([head] + tail, sep) == head + sep + Join(tail, sep)
  {
    assert ([head] + tail)[1..] == tail;
  }

  /** Joining the pieces of `split(' ')` with single spaces gives back the string. */
  lemma {:induction false} JoinSplit(s: string)
    ensures Join(Split(s), " ") == s
    decreases |s|
  {
    if s != [] {
      var rest := Split(s[1..]);
      JoinSplit(s[1..]);
      assert s == [s[0]] + s[1..];
      if s[0] == ' ' {
        assert Split(s) == [""] + rest;
        JoinCons("", rest, " ");
      } else {
        var head := [s[0]] + rest[0];
        assert Split(s) == [head] + rest[1..];
        if |rest| == 1 {
          assert Join(rest, " ") == rest[0];
          assert Join([head], " ") == head;
        } else {
          assert rest == [rest[0]] + rest[1..];
          JoinCons(rest[0], rest[1..], " ");
          JoinCons(head, rest[1..], " ");
        }
      }
    }
  }

  /** Splitting space-free pieces joined by single spaces gives back the pieces. */
  lemma {:induction false} SplitJoin(parts: seq<string>)
    requires |parts| >= 1
    requires forall k :: 0 <= k < |parts| ==> ' ' !in parts[k]
    ensures Split(Join(parts, " ")) == parts
    decreases |parts|, |parts[0]|
  {
    var p := parts[0];
    if p != [] {
      // peel the first character of the first piece
      var shorter := [p[1..]] + parts[1..];
      assert shorter[0] == p[1..] && shorter[1..] == parts[1..];
      SplitJoin(shorter);
      if |parts| == 1 {
        assert Join(parts, " ") == p;
        assert Join(shorter, " ") == p[1..];
      } else {
        assert Join(parts, " ") == p + " " + Join(parts[1..], " ");
        assert Join(shorter, " ") == p[1..] + " " + Join(parts[1..], " ");
      }
      var j := Join(parts, " ");
      assert j[0] == p[0] && j[1..] == Join(shorter, " ");
      assert p[0] != ' ' by { assert p[0] in parts[0]; }
      assert [p[0]] + p[1..] == p;
    } else if |parts| > 1 {
      SplitJoin(parts[1..]);
      var j := Join(parts, " ");
      assert j == " " + Join(parts[1..], " ");
      assert j[1..] == Join(parts[1..], " ");
      assert [""] + parts[1..] == parts;
    }
  }

  /** A single space in the input separates the pieces of the two sides. */
  lemma {:induction false} SplitAtSpace(a: string, b: string)
    ensures Split(a + " " + b) == Split(a) + Split(b)
    decreases |a|
  {
    if a == [] {
      assert (a + " " + b)[1..] == b;
    } else {
      assert (a + " " + b)[1..] == a[1..] + " " + b;
      SplitAtSpace(a[1..], b);
    }
  }

  /** A string of spaces only splits into empty pieces. */
  lemma {:induction false} SplitOfSpaces(s: string)
    requires forall k :: 0 <= k < |s| ==> s[k] == ' '
    ensures forall k :: 0 <= k < |Split(s)| ==> Split(s)[k] == ""
    decreases |s|
  {
    if s != [] {
      SplitOfSpaces(s[1..]);
    }
  }

  /** A string without a space is split into itself alone. */
  lemma {:induction false} SplitNoSpace(s: string)
    ensures ' ' !in s ==> Split(s) == [s]
    decreases |s|
  {
    if s != [] && ' ' !in s {
      assert s[0] != ' ';
      SplitNoSpace(s[1..]);
      assert ' ' !in s[1..] by {
        forall k | 0 <= k < |s[1..]| ensures s[1..][k] != ' ' {
          assert s[1..][k] == s[k + 1];
        }
      }
      assert [s[0]] + s[1..] == s;
    }
  }

  /** A character found in neither the pieces nor the separator is not in their join. */
  lemma {:induction false} JoinExcludes(parts: seq<string>, sep: string, c: char)
    requires c !in sep
    requires forall k :: 0 <= k < |parts| ==> c !in parts[k]
    ensures c !in Join(parts, sep)
    decreases |parts|
  {
    if |parts| > 1 {
      JoinExcludes(parts[1..], sep, c);
    }
  }

  // ---- lowering ----

  /** Lowering leaves no ASCII capital, and every other character stays where it was. */
  lemma LowerFoldsCapitalsOnly(s: string)
    ensures forall k :: 0 <= k < |s| ==> !('A' <= Lower(s)[k] <= 'Z')
    ensures forall k :: 0 <= k < |s| && !('A' <= s[k] <= 'Z') ==> Lower(s)[k] == s[k]
    ensures forall k, i :: 0 <= k < |s| && 0 <= i < 26 && s[k] == Capitals[i] ==> Lower(s)[k] == Smalls[i]
  {
    forall k, i | 0 <= k < |s| && 0 <= i < 26 && s[k] == Capitals[i]
      ensures Lower(s)[k] == Smalls[i]
    {
      LowerLetter(i);
    }
  }

  /** The two alphabets are the code points 'A' + i and 'a' + i. */
  lemma AlphabetCodes(i: int)
    requires 0 <= i < 26
    ensures Capitals[i] as int == 'A' as int + i && Smalls[i] as int == 'a' as int + i
  {
  }

  /** A capital and its small letter lower to the same character. */
  lemma LowerCharIgnoresCase(c: char, d: char)
    requires SameIgnoringCase(c, d)
    ensures LowerChar(c) == LowerChar(d)
  {
    if c != d {
      var i :| 0 <= i < 26 && ((c == Capitals[i] && d == Smalls[i]) || (c == Smalls[i] && d == Capitals[i]));
      LowerLetter(i);
    }
  }

  /** The `i`th capital and the `i`th small letter both lower to the small letter. */
  lemma LowerLetter(i: int)
    requires 0 <= i < 26
    ensures LowerChar(Capitals[i]) == Smalls[i] && LowerChar(Smalls[i]) == Smalls[i]
  {
    AlphabetCodes(i);
  }

  /** Strings that differ only in the case of their ASCII letters lower to the same string. */
  lemma CaseVariantsLowerAlike(s: string, t: string)
    requires |s| == |t|
    requires forall k :: 0 <= k < |s| ==> SameIgnoringCase(s[k], t[k])
    ensures Lower(s) == Lower(t)
  {
    forall k | 0 <= k < |s|
      ensures Lower(s)[k] == Lower(t)[k]
    {
      LowerCharIgnoresCase(s[k], t[k]);
    }
  }

  lemma LowerAppend(a: string, b: string)
    ensures Lower(a + b) == Lower(a) + Lower(b)
  {
  }

  lemma LowerIdempotent(s: string)
    ensures Lower(Lower(s)) == Lower(s)
  {
  }

  // ---- includes ----

  /** The empty term is included in every text, as `''.includes` answers for any receiver. */
  lemma IncludesEmpty(text: string)
    ensures Includes(text, "")
  {
    assert OccursAt(text, "", 0);
  }

  /** A term that occurs in a text occurs in any extension of it. */
  lemma IncludesInPrefix(text: string, more: string, term: string)
    ensures Includes(text, term) ==> Includes(text + more, term)
  {
    if Includes(text, term) {
      var i :| 0 <= i <= |text| - |term| && OccursAt(text, term, i);
      assert (text + more)[i..i + |term|] == text[i..i + |term|];
      assert OccursAt(text + more, term, i);
    }
  }

  // ---- replace ----

  /** After replacing every `a` `b` by `rep`, with `rep` neither `a` nor `b`, no `a` `b` is left. */
  lemma {:induction false} ReplacePairRemovesAll(s: string, a: char, b: char, rep: char)
    requires rep != a && rep != b
    ensures !HasPair(ReplacePair(s, a, b, rep), a, b)
    decreases |s|
  {
    var r := ReplacePair(s, a, b, rep);
    if |s| >= 2 && s[0] == a && s[1] == b {
      var rest := ReplacePair(s[2..], a, b, rep);
      ReplacePairRemovesAll(s[2..], a, b, rep);
      assert r == [rep] + rest;
      forall i | 0 <= i < |r| - 1 ensures !PairAt(r, a, b, i) {
        if i > 0 {
          assert !PairAt(rest, a, b, i - 1);
          assert r[i] == rest[i - 1] && r[i + 1] == rest[i];
        }
      }
    } else if s != [] {
      var rest := ReplacePair(s[1..], a, b, rep);
      ReplacePairRemovesAll(s[1..], a, b, rep);
      assert r == [s[0]] + rest;
      forall i | 0 <= i < |r| - 1 ensures !PairAt(r, a, b, i) {
        if i > 0 {
          assert !PairAt(rest, a, b, i - 1);
          assert r[i] == rest[i - 1] && r[i + 1] == rest[i];
        } else {
          ReplacePairHead(s[1..], a, b, rep);
        }
      }
    }
  }

  /** Text without the pattern comes through the replacement unchanged. */
  lemma {:induction false} ReplacePairNoMatch(s: string, a: char, b: char, rep: char)
    requires !HasPair(s, a, b)
    ensures ReplacePair(s, a, b, rep) == s
    decreases |s|
  {
    if s != [] {
      assert !PairAt(s, a, b, 0);
      var t := s[1..];
      assert !HasPair(t, a, b) by {
        forall j | PairAt(t, a, b, j) ensures PairAt(s, a, b, j + 1) {
          assert t[j] == s[j + 1] && t[j + 1] == s[j + 2];
        }
      }
      ReplacePairNoMatch(t, a, b, rep);
      assert [s[0]] + t == s;
    }
  }

  /**
   * The replacement scans left to right: everything before the leftmost
   * occurrence of the pattern is kept as it is, that occurrence becomes
   * `rep`, and the scan resumes after it.
   */
  lemma {:induction false} ReplacePairAtFirstMatch(s: string, a: char, b: char, rep: char, i: nat)
    requires PairAt(s, a, b, i)
    requires forall j :: 0 <= j < i ==> !PairAt(s, a, b, j)
    ensures ReplacePair(s, a, b, rep) == s[..i] + [rep] + ReplacePair(s[i + 2..], a, b, rep)
    decreases i
  {
    if i > 0 {
      var t := s[1..];
      var tail := ReplacePair(s[i + 2..], a, b, rep);
      assert !PairAt(s, a, b, 0);
      assert ReplacePair(s, a, b, rep) == [s[0]] + ReplacePair(t, a, b, rep);
      forall j | 0 <= j < i - 1 ensures !PairAt(t, a, b, j) {
        assert !PairAt(s, a, b, j + 1);
        assert t[j] == s[j + 1] && t[j + 1] == s[j + 2];
      }
      assert t[i + 1..] == s[i + 2..];
      ReplacePairAtFirstMatch(t, a, b, rep, i - 1);
      assert [s[0]] + t[..i - 1] == s[..i];
    }
  }

  /** Deleting a character is filtering out every copy of it: all other characters are kept, in order. */
  lemma {:induction false} DeleteCharIsFilter(s: string, c: char)
    ensures DeleteChar(s, c) == Seqs.Filter(s, (x: char) => x != c)
    decreases |s|
  {
    if s != [] {
      DeleteCharIsFilter(s[1..], c);
    }
  }

  /** The first character of a replacement result: `rep` when `s` starts with the pattern, else `s[0]`. */
  lemma ReplacePairHead(s: string, a: char, b: char, rep: char)
    requires s != []
    ensures ReplacePair(s, a, b, rep) != []
    ensures ReplacePair(s, a, b, rep)[0] == if |s| >= 2 && s[0] == a && s[1] == b then rep else s[0]
  {
  }
}
