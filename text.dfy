/**
 * The parts of Python's `str` behaviour that the helpers rely on: whitespace
 * classification, `strip`, `split`, `join`, `find`/`rfind`, `lower`, `title`,
 * `replace` of one character, `startswith`/`endswith`.
 *
 * Case mapping (`lower`, `title`, case-insensitive matching) is modelled for
 * ASCII letters only; every other character is left as it is.
 */
module Text {
  import opened Wrappers

  /** Python's `str.isspace()` (and the `\s` class of `re` on text). */
  predicate IsSpace(c: char) {
    || ('\t' <= c <= '\r')
    || ('\U{1C}' <= c <= '\U{1F}')
    || c == ' '
    || c == '\U{85}'
    || c == '\U{A0}'
    || c == '\U{1680}'
    || ('\U{2000}' <= c <= '\U{200A}')
    || c == '\U{2028}'
    || c == '\U{2029}'
    || c == '\U{202F}'
    || c == '\U{205F}'
    || c == '\U{3000}'
  }

  predicate IsUpper(c: char) { 'A' <= c <= 'Z' }
  predicate IsLower(c: char) { 'a' <= c <= 'z' }
  predicate IsLetter(c: char) { IsUpper(c) || IsLower(c) }
  predicate IsDigit(c: char) { '0' <= c <= '9' }

  /** The `\w` class of `re`: letters, digits and the underscore. */
  predicate IsWordChar(c: char) { IsLetter(c) || IsDigit(c) || c == '_' }

  function LowerChar(c: char): (r: char)
    ensures IsLetter(c) ==> IsLower(r)
    ensures !IsLetter(c) ==> r == c
  {
    if IsUpper(c) then (c as int + 32) as char else c
  }

  function UpperChar(c: char): (r: char)
    ensures IsLetter(c) ==> IsUpper(r)
    ensures !IsLetter(c) ==> r == c
  {
    if IsLower(c) then (c as int - 32) as char else c
  }

  /** `s.lower()` */
  function Lower(s: string): (r: string)
    ensures |r| == |s|
    ensures forall i :: 0 <= i < |s| ==> r[i] == LowerChar(s[i])
  {
    seq(|s|, i requires 0 <= i < |s| => LowerChar(s[i]))
  }

  /** `s.replace(from, to)` for one-character `from` and `to`. */
  function Replace(s: string, from: char, to: char): (r: string)
    ensures |r| == |s|
    ensures forall i :: 0 <= i < |s| ==> r[i] == if s[i] == from then to else s[i]
  {
    seq(|s|, i requires 0 <= i < |s| => if s[i] == from then to else s[i])
  }

  predicate StartsWith(s: string, prefix: string) {
    |prefix| <= |s| && s[..|prefix|] == prefix
  }

  predicate EndsWith(s: string, suffix: string) {
    |suffix| <= |s| && s[|s| - |suffix|..] == suffix
  }

  /** `pat` occurs in `s` starting at index `i`. */
  predicate OccursAt(s: string, pat: string, i: nat) {
    i + |pat| <= |s| && s[i..i + |pat|] == pat
  }

  /** The first occurrence of `pat` at or after `i` (`s.find(pat, i)`). */
  function FindFrom(s: string, pat: string, i: nat): (r: Option<nat>)
    ensures r.Some? ==> i <= r.value && OccursAt(s, pat, r.value)
    ensures r.Some? ==> forall j :: i <= j < r.value ==> !OccursAt(s, pat, j)
    ensures r.None? ==> forall j :: i <= j ==> !OccursAt(s, pat, j)
    decreases |s| - i
  {
    if i + |pat| > |s| then None
    else if s[i..i + |pat|] == pat then Some(i)
    else FindFrom(s, pat, i + 1)
  }

  function Find(s: string, pat: string): Option<nat> {
    FindFrom(s, pat, 0)
  }

  /** `pat in s` */
  predicate Contains(s: string, pat: string) {
    Find(s, pat).Some?
  }

  /** The last occurrence of `pat` that starts before `k`. */
  function RFindBelow(s: string, pat: string, k: nat): (r: Option<nat>)
    ensures r.Some? ==> r.value < k && OccursAt(s, pat, r.value)
    ensures r.Some? ==> forall j :: r.value < j < k ==> !OccursAt(s, pat, j)
    ensures r.None? ==> forall j: nat :: j < k ==> !OccursAt(s, pat, j)
  {
    if k == 0 then None
    else if OccursAt(s, pat, k - 1) then Some(k - 1)
    else RFindBelow(s, pat, k - 1)
  }

  /** `s.rfind(pat)`: the last occurrence of `pat` in `s`. */
  function RFind(s: string, pat: string): (r: Option<nat>)
    ensures r.Some? ==> OccursAt(s, pat, r.value) && forall j :: r.value < j ==> !OccursAt(s, pat, j)
    ensures r.None? ==> forall j: nat :: !OccursAt(s, pat, j)
  {
    RFindBelow(s, pat, |s| + 1)
  }

  lemma ContainsAt(s: string, pat: string, i: nat)
    requires OccursAt(s, pat, i)
    ensures Contains(s, pat)
  {
  }

  /** A one-character pattern whose character does not occur is never found. */
  lemma FindAbsentChar(s: string, c: char)
    requires c !in s
    ensures Find(s, [c]) == None
  {
    forall j: nat ensures !OccursAt(s, [c], j) {
      if j + 1 <= |s| {
        assert s[j..j + 1][0] == s[j];
        assert s[j] in s;
      }
    }
  }

  /** `s.lstrip()` */
  function LStrip(s: string): (r: string)
    ensures |r| <= |s| && r == s[|s| - |r|..]
    ensures r == [] || !IsSpace(r[0])
    ensures forall i :: 0 <= i < |s| - |r| ==> IsSpace(s[i])
  {
    if s != [] && IsSpace(s[0]) then LStrip(s[1..]) else s
  }

  /** `s.rstrip()` */
  function RStrip(s: string): (r: string)
    ensures |r| <= |s| && r == s[..|r|]
    ensures r == [] || !IsSpace(r[|r| - 1])
    ensures forall i :: |r| <= i < |s| ==> IsSpace(s[i])
  {
    if s != [] && IsSpace(s[|s| - 1]) then RStrip(s[..|s| - 1]) else s
  }

  /** `s.strip()` */
  function Strip(s: string): string {
    RStrip(LStrip(s))
  }

  /** A string that `strip` leaves alone. */
  predicate IsStripped(s: string) {
    s == [] || (!IsSpace(s[0]) && !IsSpace(s[|s| - 1]))
  }

  lemma StripProperties(s: string)
    ensures IsStripped(Strip(s))
    ensures Strip(s) == [] <==> forall i :: 0 <= i < |s| ==> IsSpace(s[i])
    ensures forall c :: c in Strip(s) ==> c in s
  {
    var l := LStrip(s);
    var r := RStrip(l);
    if r != [] {
      assert r[0] == l[0];
    }
    assert r == s[|s| - |l|..][..|r|];
  }

  lemma StripOfStripped(s: string)
    requires IsStripped(s)
    ensures Strip(s) == s
  {
  }

  /** `(t + " ").rstrip() == t.rstrip()` */
  lemma RStripSpace(t: string)
    ensures RStrip(t + " ") == RStrip(t)
  {
    var ts := t + " ";
    assert ts[|ts| - 1] == ' ';
    assert ts[..|ts| - 1] == t;
  }

  /** `(" " + t).lstrip() == t.lstrip()` */
  lemma LStripSpace(t: string)
    ensures LStrip(" " + t) == LStrip(t)
  {
    var st := " " + t;
    assert st[0] == ' ';
    assert st[1..] == t;
  }

  /** `sep.join(parts)` */
  function Join(sep: string, parts: seq<string>): string {
    if parts == [] then []
    else if |parts| == 1 then parts[0]
    else parts[0] + sep + Join(sep, parts[1..])
  }

  lemma JoinCons(sep: string, parts: seq<string>)
    requires |parts| >= 2
    ensures Join(sep, parts) == parts[0] + (sep + Join(sep, parts[1..]))
  {
  }

  /** A join is at least as long as its first part. */
  lemma JoinLength(sep: string, parts: seq<string>)
    requires |parts| >= 1
    ensures |Join(sep, parts)| >= |parts[0]|
  {
  }

  /** Joining one more part adds the separator and the part at the end. */
  lemma {:induction false} JoinSnoc(sep: string, parts: seq<string>, last: string)
    requires |parts| >= 1
    ensures Join(sep, parts + [last]) == Join(sep, parts) + sep + last
    decreases |parts|
  {
    if |parts| > 1 {
      JoinSnoc(sep, parts[1..], last);
      assert (parts + [last])[1..] == parts[1..] + [last];
    }
  }

  /** Joining two nonempty lists of parts is joining each and putting the separator between. */
  lemma {:induction false} JoinAppend(sep: string, a: seq<string>, b: seq<string>)
    requires |a| >= 1 && |b| >= 1
    ensures Join(sep, a + b) == Join(sep, a) + sep + Join(sep, b)
    decreases |a|
  {
    if |a| > 1 {
      JoinAppend(sep, a[1..], b);
      assert (a + b)[1..] == a[1..] + b;
    }
  }

  /** `s.split(sep)` for a one-character separator. */
  function Split(s: string, sep: char): (parts: seq<string>)
    ensures |parts| >= 1
    ensures forall k :: 0 <= k < |parts| ==> sep !in parts[k]
  {
    if s == [] then [[]]
    else
      var rest := Split(s[1..], sep);
      if s[0] == sep then [[]] + rest
      else [[s[0]] + rest[0]] + rest[1..]
  }

  /** Joining the pieces of a split with the separator gives the string back. */
  lemma {:induction false} JoinSplit(s: string, sep: char)
    ensures Join([sep], Split(s, sep)) == s
  {
    if s != [] {
      var rest := Split(s[1..], sep);
      JoinSplit(s[1..], sep);
      if s[0] == sep {
        assert Split(s, sep) == [[]] + rest;
        assert ([[]] + rest)[1..] == rest;
      } else {
        var parts := [[s[0]] + rest[0]] + rest[1..];
        assert Split(s, sep) == parts;
        if |rest| == 1 {
          assert Join([sep], rest) == rest[0];
        } else {
          assert Join([sep], rest) == rest[0] + [sep] + Join([sep], rest[1..]);
          assert parts[1..] == rest[1..];
        }
      }
    }
  }

  /** Splitting a join of separator-free pieces gives the pieces back. */
  lemma {:induction false} SplitJoin(parts: seq<string>, sep: char)
    requires |parts| >= 1
    requires forall k :: 0 <= k < |parts| ==> sep !in parts[k]
    ensures Split(Join([sep], parts), sep) == parts
    decreases |parts|, |parts[0]|
  {
    if |parts| == 1 {
      SplitNoSep(parts[0], sep);
    } else if parts[0] == [] {
      var tail := Join([sep], parts[1..]);
      assert Join([sep], parts) == [sep] + tail;
      SplitJoin(parts[1..], sep);
      assert ([sep] + tail)[1..] == tail;
      assert [[]] + parts[1..] == parts;
    } else {
      var s := Join([sep], parts);
      var shorter := [parts[0][1..]] + parts[1..];
      assert s == [parts[0][0]] + Join([sep], shorter) by {
        assert Join([sep], shorter) == parts[0][1..] + [sep] + Join([sep], shorter[1..]);
        assert shorter[1..] == parts[1..];
      }
      assert forall k :: 0 <= k < |shorter| ==> sep !in shorter[k] by {
        forall k | 0 <= k < |shorter| ensures sep !in shorter[k] {
          if k == 0 {
            assert parts[0] == [parts[0][0]] + parts[0][1..];
          } else {
            assert shorter[k] == parts[k];
          }
        }
      }
      SplitJoin(shorter, sep);
      assert s[1..] == Join([sep], shorter);
      assert s[0] == parts[0][0];
      assert parts[0][0] != sep by { assert parts[0][0] in parts[0]; }
      assert Split(s, sep) == [[s[0]] + shorter[0]] + shorter[1..];
      assert [s[0]] + shorter[0] == parts[0];
      assert [parts[0]] + parts[1..] == parts;
    }
  }

  lemma {:induction false} SplitNoSep(s: string, sep: char)
    requires sep !in s
    ensures Split(s, sep) == [s]
  {
    if s != [] {
      assert sep !in s[1..] by {
        forall i | 0 <= i < |s[1..]| ensures s[1..][i] != sep { assert s[1..][i] == s[i + 1]; }
      }
      SplitNoSep(s[1..], sep);
      assert s[0] != sep by { assert s[0] in s; }
      assert [s[0]] + s[1..] == s;
    }
  }

  predicate NoSpace(s: string) {
    forall i :: 0 <= i < |s| ==> !IsSpace(s[i])
  }

  /** The length of the leading run of characters that are not whitespace. */
  function WordLength(s: string): (n: nat)
    ensures n <= |s|
    ensures forall i :: 0 <= i < n ==> !IsSpace(s[i])
    ensures n < |s| ==> IsSpace(s[n])
  {
    if s == [] || IsSpace(s[0]) then 0 else 1 + WordLength(s[1..])
  }

  /** `s.split()`: the maximal runs of non-whitespace characters. */
  function Words(s: string): (ws: seq<string>)
    ensures forall k :: 0 <= k < |ws| ==> ws[k] != [] && NoSpace(ws[k])
    decreases |s|
  {
    if s == [] then []
    else if IsSpace(s[0]) then Words(s[1..])
    else
      var n := WordLength(s);
      assert NoSpace(s[..n]) by { assert forall i :: 0 <= i < n ==> s[..n][i] == s[i]; }
      [s[..n]] + Words(s[n..])
  }

  /** Title-casing: a letter is upper-cased when the character before it is not a letter. */
  function TitleFrom(s: string, previousCased: bool): (r: string)
    ensures |r| == |s|
  {
    if s == [] then []
    else
      var c := if previousCased then LowerChar(s[0]) else UpperChar(s[0]);
      [c] + TitleFrom(s[1..], IsLetter(c))
  }

  /** `s.title()` */
  function Title(s: string): (r: string)
    ensures |r| == |s|
  {
    TitleFrom(s, false)
  }

  lemma WordsOfSpaces(w: string, t: string)
    requires forall i :: 0 <= i < |w| ==> IsSpace(w[i])
    ensures Words(w + t) == Words(t)
    decreases |w|
  {
    if w != [] {
      assert (w + t)[1..] == w[1..] + t;
      WordsOfSpaces(w[1..], t);
    } else {
      assert w + t == t;
    }
  }

  lemma WordLengthOfWord(w: string, rest: string)
    requires NoSpace(w) && (rest == [] || IsSpace(rest[0]))
    ensures WordLength(w + rest) == |w|
  {
    var s := w + rest;
    assert forall i :: 0 <= i < |w| ==> s[i] == w[i];
    if rest != [] {
      assert s[|w|] == rest[0];
    }
  }

  /** A word followed by whitespace or nothing is the first word. */
  lemma WordsCons(w: string, rest: string)
    requires w != [] && NoSpace(w) && (rest == [] || IsSpace(rest[0]))
    ensures Words(w + rest) == [w] + Words(rest)
  {
    var s := w + rest;
    assert s[0] == w[0];
    WordLengthOfWord(w, rest);
    assert s[..|w|] == w && s[|w|..] == rest;
  }

  /** Splitting words joined by single spaces gives the words back. */
  lemma {:induction false} WordsOfJoin(ws: seq<string>)
    requires forall k :: 0 <= k < |ws| ==> ws[k] != [] && NoSpace(ws[k])
    ensures Words(Join(" ", ws)) == ws
    decreases |ws|
  {
    if |ws| == 1 {
      WordsCons(ws[0], []);
      assert ws[0] + [] == ws[0];
    } else if |ws| > 1 {
      var rest := ws[1..];
      var j := Join(" ", rest);
      WordsOfJoin(rest);
      JoinCons(" ", ws);
      WordsCons(ws[0], " " + j);
      WordsOfSpaces(" ", j);
      assert [ws[0]] + rest == ws;
    }
  }

  lemma LetterCaseChars(c: char)
    ensures IsLetter(LowerChar(c)) == IsLetter(c) && IsLetter(UpperChar(c)) == IsLetter(c)
    ensures LowerChar(LowerChar(c)) == LowerChar(c) && LowerChar(UpperChar(c)) == LowerChar(c)
    ensures UpperChar(UpperChar(c)) == UpperChar(c) && UpperChar(LowerChar(c)) == UpperChar(c)
  {
  }

  /**
   * The closed form of title-casing: a character is upper-cased when it starts the string
   * (and no cased character precedes it) or follows a non-letter, and lower-cased otherwise.
   */
  lemma {:induction false} TitleFromAt(s: string, previousCased: bool, i: nat)
    requires i < |s|
    ensures TitleFrom(s, previousCased)[i] ==
      if (if i == 0 then previousCased else IsLetter(s[i - 1])) then LowerChar(s[i]) else UpperChar(s[i])
    decreases i
  {
    if i > 0 {
      var c := if previousCased then LowerChar(s[0]) else UpperChar(s[0]);
      LetterCaseChars(s[0]);
      TitleFromAt(s[1..], IsLetter(c), i - 1);
      assert TitleFrom(s, previousCased)[i] == TitleFrom(s[1..], IsLetter(c))[i - 1];
      if i > 1 {
        assert s[1..][i - 2] == s[i - 1];
      }
    }
  }

  lemma TitleAt(s: string, i: nat)
    requires i < |s|
    ensures Title(s)[i] == if i > 0 && IsLetter(s[i - 1]) then LowerChar(s[i]) else UpperChar(s[i])
  {
    TitleFromAt(s, false, i);
  }

  /** Title-casing twice is title-casing once. */
  lemma TitleIdempotent(s: string)
    ensures Title(Title(s)) == Title(s)
  {
    var t := Title(s);
    forall i | 0 <= i < |s| ensures Title(t)[i] == t[i] {
      TitleAt(s, i);
      TitleAt(t, i);
      LetterCaseChars(s[i]);
      if i > 0 {
        TitleAt(s, i - 1);
        LetterCaseChars(s[i - 1]);
      }
    }
  }

  /**
   * Title-casing works word by word: title-casing two texts joined by a space
   * is title-casing each of them.
   */
  lemma TitleSpaced(x: string, y: string)
    ensures Title(x + " " + y) == Title(x) + " " + Title(y)
  {
    var s := x + " " + y;
    var r := Title(x) + " " + Title(y);
    forall i | 0 <= i < |s| ensures Title(s)[i] == r[i] {
      TitleAt(s, i);
      if i < |x| {
        TitleAt(x, i);
        assert s[i] == x[i];
        if i > 0 { assert s[i - 1] == x[i - 1]; }
      } else if i > |x| {
        var j := i - |x| - 1;
        TitleAt(y, j);
        assert s[i] == y[j];
        if j > 0 { assert s[i - 1] == y[j - 1]; }
      }
    }
  }

  /** Each word title-cased. */
  function TitleWords(ws: seq<string>): (ts: seq<string>)
    ensures |ts| == |ws|
  {
    seq(|ws|, k requires 0 <= k < |ws| => Title(ws[k]))
  }

  /** Title-casing words joined by spaces is joining the title-cased words. */
  lemma {:induction false} TitleOfJoin(ws: seq<string>)
    ensures Title(Join(" ", ws)) == Join(" ", TitleWords(ws))
    decreases |ws|
  {
    if |ws| > 1 {
      TitleOfJoin(ws[1..]);
      TitleSpaced(ws[0], Join(" ", ws[1..]));
      assert TitleWords(ws)[1..] == TitleWords(ws[1..]);
    }
  }

  /** Title-casing never makes or removes whitespace. */
  lemma TitleNoSpace(w: string)
    requires NoSpace(w)
    ensures NoSpace(Title(w))
  {
    forall i | 0 <= i < |w| ensures !IsSpace(Title(w)[i]) {
      TitleAt(w, i);
    }
  }

  /** Replacing the separator of a join whose parts do not hold it changes the separator only. */
  lemma {:induction false} ReplaceJoin(ws: seq<string>, from: char, to: char)
    requires forall k :: 0 <= k < |ws| ==> from !in ws[k]
    ensures Replace(Join([from], ws), from, to) == Join([to], ws)
    decreases |ws|
  {
    if |ws| == 1 {
      assert Replace(ws[0], from, to) == ws[0];
    } else if |ws| > 1 {
      ReplaceJoin(ws[1..], from, to);
      var a := ws[0];
      var b := Join([from], ws[1..]);
      var x := Replace(a + [from] + b, from, to);
      var y := a + [to] + Replace(b, from, to);
      assert forall i :: 0 <= i < |x| ==> x[i] == y[i];
    }
  }
}
