/** The markdown fence stripping of the recognition service (app/routes/api/index.tsx):
    `text.replace(/```json\n|\n```/g, '')`. A global regular-expression replace scans
    the text left to right with a moving index; at each index it tries the alternatives
    in order, removes the first one that matches and resumes right after it, and
    otherwise keeps the character and moves on by one. */
module Fence {

  const Open := "```json\n"
  const Close := "\n```"

  /** "```json\n" occurs in `s` at index `i`, spelled out character by character. */
  predicate OpenAt(s: string, i: int)
  {
    0 <= i && i + 8 <= |s| && s[i] == '`' && s[i + 1] == '`' && s[i + 2] == '`' && s[i + 3] == 'j'
    && s[i + 4] == 's' && s[i + 5] == 'o' && s[i + 6] == 'n' && s[i + 7] == '\n'
  }

  /** "\n```" occurs in `s` at index `i`. */
  predicate CloseAt(s: string, i: int)
  {
    0 <= i && i + 4 <= |s| && s[i] == '\n' && s[i + 1] == '`' && s[i + 2] == '`' && s[i + 3] == '`'
  }

  /** `d` occurs in `s` starting at index `i`. */
  predicate StartsAt(d: string, s: string, i: int)
  {
    0 <= i && i + |d| <= |s| && s[i..i + |d|] == d
  }

  /** The character-wise tests are exactly occurrences of the two delimiters. */
  lemma DelimitersSpelled(s: string, i: int)
    ensures OpenAt(s, i) <==> StartsAt(Open, s, i)
    ensures CloseAt(s, i) <==> StartsAt(Close, s, i)
  {
  }

  /** Some delimiter occurs somewhere in `s`. */
  predicate HasDelimiter(s: string)
  {
    exists i :: 0 <= i <= |s| && (StartsAt(Open, s, i) || StartsAt(Close, s, i))
  }

  predicate NoBacktick(s: string)
  {
    forall i :: 0 <= i < |s| ==> s[i] != '`'
  }

  /** The scan from index `i` to the end of `s`. */
  function StripFrom(s: string, i: nat): (r: string)
    requires i <= |s|
    ensures |r| <= |s| - i
    decreases |s| - i
  {
    if i == |s| then []
    else if OpenAt(s, i) then StripFrom(s, i + |Open|)
    else if CloseAt(s, i) then StripFrom(s, i + |Close|)
    else [s[i]] + StripFrom(s, i + 1)
  }

  /** The replace itself; it never lengthens the text. */
  function Strip(s: string): (r: string)
    ensures |r| <= |s|
  {
    StripFrom(s, 0)
  }

  /** The scan recorded as pieces: a kept character or a removed delimiter. */
  datatype Piece = Kept(c: char) | DroppedOpen | DroppedClose

  function ScanFrom(s: string, i: nat): (ps: seq<Piece>)
    requires i <= |s|
    ensures |ps| <= |s| - i
    ensures ps == [] <==> i == |s|
    decreases |s| - i
  {
    if i == |s| then []
    else if OpenAt(s, i) then [DroppedOpen] + ScanFrom(s, i + |Open|)
    else if CloseAt(s, i) then [DroppedClose] + ScanFrom(s, i + |Close|)
    else [Kept(s[i])] + ScanFrom(s, i + 1)
  }

  /** The text a piece was read from. */
  function Source(p: Piece): string
  {
    match p
    case Kept(c) => [c]
    case DroppedOpen => Open
    case DroppedClose => Close
  }

  function Joined(ps: seq<Piece>): string
  {
    if ps == [] then [] else Source(ps[0]) + Joined(ps[1..])
  }

  function KeptText(ps: seq<Piece>): string
  {
    if ps == [] then []
    else (if ps[0].Kept? then [ps[0].c] else []) + KeptText(ps[1..])
  }

  /** The scan loses nothing: its pieces, put back together, are the input. */
  lemma {:induction false} ScanJoined(s: string, i: nat)
    requires i <= |s|
    ensures Joined(ScanFrom(s, i)) == s[i..]
    decreases |s| - i
  {
    if i == |s| {
    } else if OpenAt(s, i) {
      ScanJoined(s, i + |Open|);
      DelimitersSpelled(s, i);
      Split(s, i, i + |Open|);
    } else if CloseAt(s, i) {
      ScanJoined(s, i + |Close|);
      DelimitersSpelled(s, i);
      Split(s, i, i + |Close|);
    } else {
      ScanJoined(s, i + 1);
      Split(s, i, i + 1);
    }
  }

  lemma Split(s: string, i: nat, k: nat)
    requires i <= k <= |s|
    ensures s[i..] == s[i..k] + s[k..]
  {
  }

  /** Stripping keeps exactly the characters the scan keeps, in order: the output is the
      input with the scanned delimiters, and only those, removed. */
  lemma {:induction false} StripKeepsScanned(s: string, i: nat)
    requires i <= |s|
    ensures StripFrom(s, i) == KeptText(ScanFrom(s, i))
    decreases |s| - i
  {
    if i == |s| {
    } else if OpenAt(s, i) {
      StripKeepsScanned(s, i + |Open|);
    } else if CloseAt(s, i) {
      StripKeepsScanned(s, i + |Close|);
    } else {
      StripKeepsScanned(s, i + 1);
    }
  }

  /** Both views of the whole text: the scan reassembles to `s`, and `Strip(s)` is what
      it keeps. */
  lemma StripIsScan(s: string)
    ensures Joined(ScanFrom(s, 0)) == s
    ensures Strip(s) == KeptText(ScanFrom(s, 0))
  {
    ScanJoined(s, 0);
    StripKeepsScanned(s, 0);
  }

  /** The two alternatives never both match at one index: "```json\n" starts with a
      backtick and "\n```" with a newline. So the order in which the regular expression
      tries them never decides anything. */
  lemma DelimitersExclusive(s: string, i: int)
    ensures !(OpenAt(s, i) && CloseAt(s, i))
  {
  }

  /** Matches never overlap: once "\n```" is removed the scan resumes after it, so a
      "```json\n" that began inside it stays (minus its consumed backticks). */
  lemma NonOverlapping(s: string)
    requires s == Close + "json\n"
    ensures StartsAt(Open, s, 1)
    ensures Strip(s) == "json\n"
  {
    assert |s| == 9;
    assert s[1..9] == Open;
    assert CloseAt(s, 0);
    assert s[4] == 'j' && s[5] == 's' && s[6] == 'o' && s[7] == 'n' && s[8] == '\n';
    KeepsPlainRun(s, 4, 9);
    assert s[4..9] == "json\n";
  }

  /** A text with no delimiter at or after `i` is kept from `i` on unchanged. */
  lemma {:induction false} NoDelimiterKept(s: string, i: nat)
    requires i <= |s|
    requires forall k :: i <= k <= |s| ==> !OpenAt(s, k) && !CloseAt(s, k)
    ensures StripFrom(s, i) == s[i..]
    decreases |s| - i
  {
    if i < |s| {
      NoDelimiterKept(s, i + 1);
      assert s[i..] == [s[i]] + s[i + 1..];
    }
  }

  /** A delimiter at or after `i` makes the scan from `i` lose characters. */
  lemma {:induction false} DelimiterShrinks(s: string, i: nat, k: nat)
    requires i <= k <= |s|
    requires OpenAt(s, k) || CloseAt(s, k)
    ensures |StripFrom(s, i)| < |s| - i
    decreases k - i
  {
    if !OpenAt(s, i) && !CloseAt(s, i) {
      DelimiterShrinks(s, i + 1, k);
    }
  }

  /** Stripping leaves a text unchanged exactly when it contains neither delimiter. */
  lemma StripUnchangedIff(s: string)
    ensures Strip(s) == s <==> !HasDelimiter(s)
  {
    if HasDelimiter(s) {
      var k :| 0 <= k <= |s| && (StartsAt(Open, s, k) || StartsAt(Close, s, k));
      DelimitersSpelled(s, k);
      DelimiterShrinks(s, 0, k);
    } else {
      forall k | 0 <= k <= |s|
        ensures !OpenAt(s, k) && !CloseAt(s, k)
      {
        DelimitersSpelled(s, k);
      }
      NoDelimiterKept(s, 0);
    }
  }

  /** Concatenation regroups freely; stated once so the scan proofs need not rediscover it. */
  lemma Assoc(a: string, b: string, c: string)
    ensures a + (b + c) == (a + b) + c
  {
  }

  /** A character that is not a backtick, followed by one that is not either, is kept. */
  lemma KeepsChar(s: string, i: nat)
    requires i < |s| && s[i] != '`'
    requires i + 1 == |s| || s[i + 1] != '`'
    ensures StripFrom(s, i) == [s[i]] + StripFrom(s, i + 1)
  {
  }

  /** A run `s[i..k]` without backticks is kept whole, provided the character at `k` is
      not a backtick either (otherwise a trailing newline could begin a closing
      delimiter). */
  lemma {:induction false} KeepsPlainRun(s: string, i: nat, k: nat)
    requires i <= k <= |s|
    requires forall j :: i <= j < k ==> s[j] != '`'
    requires k == |s| || s[k] != '`'
    ensures StripFrom(s, i) == s[i..k] + StripFrom(s, k)
    decreases k - i
  {
    if i < k {
      KeepsChar(s, i);
      KeepsPlainRun(s, i + 1, k);
      assert s[i..k] == [s[i]] + s[i + 1..k];
      Assoc([s[i]], s[i + 1..k], StripFrom(s, k));
    }
  }

  /** The reply shape the service expects from the hosted model: a JSON text `j` without
      backticks, wrapped in a ```json fence, comes back as exactly `j`. */
  lemma StripWrapped(j: string)
    requires NoBacktick(j)
    ensures Strip(Open + j + Close) == j
  {
    var s := Open + j + Close;
    var n := |Open| + |j|;
    assert OpenAt(s, 0);
    assert forall m :: 0 <= m < |j| ==> s[|Open| + m] == j[m];
    assert s[|Open|..n] == j;
    assert CloseAt(s, n);
    KeepsPlainRun(s, |Open|, n);
  }

  /** Stripping a bare opening delimiter leaves nothing. */
  lemma StripOpenAlone()
    ensures Strip(Open) == []
  {
    assert OpenAt(Open, 0);
  }

  /** The first five characters "```js" of the single-pass example are kept. */
  lemma KeepsBackticksJs(s: string)
    requires s == "```js" + Open + "on\n"
    ensures StripFrom(s, 0) == "```js" + StripFrom(s, 5)
  {
    assert |s| == 16;
    assert s[0] == '`' && s[1] == '`' && s[2] == '`' && s[3] == 'j' && s[4] == 's' && s[5] == '`';
    assert StripFrom(s, 4) == s[4..5] + StripFrom(s, 5);
    assert StripFrom(s, 3) == s[3..5] + StripFrom(s, 5) by { assert s[3..5] == [s[3]] + s[4..5]; }
    assert StripFrom(s, 2) == s[2..5] + StripFrom(s, 5) by { assert s[2..5] == [s[2]] + s[3..5]; }
    assert StripFrom(s, 1) == s[1..5] + StripFrom(s, 5) by { assert s[1..5] == [s[1]] + s[2..5]; }
    assert StripFrom(s, 0) == s[0..5] + StripFrom(s, 5) by { assert s[0..5] == [s[0]] + s[1..5]; }
    assert s[0..5] == "```js";
  }

  /** The replace is a single pass: removing a delimiter can join the text around it
      into a new delimiter, which stays in the output. */
  lemma SinglePass(s: string)
    requires s == "```js" + Open + "on\n"
    ensures Strip(s) == Open
    ensures Strip(Strip(s)) == []
  {
    assert |s| == 16;
    assert s[5..13] == Open;
    assert OpenAt(s, 5);
    assert StripFrom(s, 13) == "on\n" by {
      assert s[13] == 'o' && s[14] == 'n' && s[15] == '\n';
      KeepsPlainRun(s, 13, 16);
      assert s[13..16] == "on\n";
    }
    KeepsBackticksJs(s);
    StripOpenAlone();
  }
}
