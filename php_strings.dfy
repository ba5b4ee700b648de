/** Models of the PHP string built-ins that the addon installer relies on:
    `strtolower`, `str_replace` with one search string, `substr` from offset 0
    and `explode` with a limit of 2. Only ASCII behaviour is modelled. */
module PhpStrings {

  predicate IsUpperAscii(c: char) {
    'A' <= c <= 'Z'
  }

  /** The ASCII lower-case form of one character; every other character is kept. */
  function LowerChar(c: char): char {
    if IsUpperAscii(c) then (c as int - 'A' as int + 'a' as int) as char else c
  }

  /** `strtolower(s)`: maps A-Z to a-z and keeps every other character in place. */
  function ToLower(s: string): (r: string)
    ensures |r| == |s|
    ensures forall i :: 0 <= i < |s| ==> r[i] == LowerChar(s[i])
    ensures forall i :: 0 <= i < |s| && !IsUpperAscii(s[i]) ==> r[i] == s[i]
    ensures forall c :: c in r ==> !IsUpperAscii(c)
  {
    seq(|s|, i requires 0 <= i < |s| => LowerChar(s[i]))
  }

  /** Lower-casing works character by character, so it distributes over concatenation. */
  lemma ToLowerConcat(a: string, b: string)
    ensures ToLower(a + b) == ToLower(a) + ToLower(b)
  {
  }

  /** `str_replace(search, replace, subject)` with a single search string: one
      left-to-right scan that replaces every non-overlapping occurrence of
      `search`; text put in by a replacement is never scanned again. An empty
      `search` leaves the subject as it is. */
  function StrReplace(search: string, replace: string, subject: string): (r: string)
    ensures search == [] ==> r == subject
    // replacing by a string of the same length keeps the length
    ensures |replace| == |search| ==> |r| == |subject|
    // deleting never makes the subject longer
    ensures replace == [] ==> |r| <= |subject|
    decreases |subject|
  {
    if search == [] || subject == [] then subject
    else if search <= subject then replace + StrReplace(search, replace, subject[|search|..])
    else [subject[0]] + StrReplace(search, replace, subject[1..])
  }

  /** Reference definition of replacing one character by another everywhere. */
  function ReplaceEach(from: char, to: char, s: string): (r: string)
    ensures |r| == |s|
    ensures forall i :: 0 <= i < |s| ==> r[i] == (if s[i] == from then to else s[i])
  {
    seq(|s|, i requires 0 <= i < |s| => if s[i] == from then to else s[i])
  }

  /** With a one-character search and a one-character replacement, the scan of
      `str_replace` is the same as replacing that character everywhere. */
  lemma {:induction false} StrReplaceOneChar(from: char, to: char, s: string)
    ensures StrReplace([from], [to], s) == ReplaceEach(from, to, s)
    decreases |s|
  {
    if s != [] {
      StrReplaceOneChar(from, to, s[1..]);
      var rest := ReplaceEach(from, to, s[1..]);
      assert ReplaceEach(from, to, s) == [if s[0] == from then to else s[0]] + rest;
    }
  }

  /** Every character of the result comes from the subject or from the replacement. */
  lemma {:induction false} StrReplaceDrawsFrom(search: string, replace: string, subject: string)
    ensures forall c :: c in StrReplace(search, replace, subject) ==> c in subject || c in replace
    decreases |subject|
  {
    if search != [] && subject != [] {
      if search <= subject {
        var tail := subject[|search|..];
        StrReplaceDrawsFrom(search, replace, tail);
        assert forall c :: c in tail ==> c in subject;
      } else {
        var tail := subject[1..];
        StrReplaceDrawsFrom(search, replace, tail);
        assert forall c :: c in tail ==> c in subject;
      }
    }
  }

  /** `search` starts at no position of `subject`. */
  predicate NoOccurrence(search: string, subject: string) {
    forall i :: 0 <= i <= |subject| ==> !(search <= subject[i..])
  }

  /** A subject in which `search` does not occur is left as it is. */
  lemma {:induction false} StrReplaceNoOccurrence(search: string, replace: string, subject: string)
    requires search != [] && NoOccurrence(search, subject)
    ensures StrReplace(search, replace, subject) == subject
    decreases |subject|
  {
    if subject != [] {
      assert subject[0..] == subject;
      var tail := subject[1..];
      forall i | 0 <= i <= |tail| ensures !(search <= tail[i..]) {
        assert tail[i..] == subject[i + 1..];
      }
      StrReplaceNoOccurrence(search, replace, tail);
      assert [subject[0]] + tail == subject;
    }
  }

  /** In particular, a subject that lacks the first character of `search` is left as it is. */
  lemma StrReplaceAbsent(search: string, replace: string, subject: string)
    requires search != [] && search[0] !in subject
    ensures StrReplace(search, replace, subject) == subject
  {
    StrReplaceNoOccurrence(search, replace, subject);
  }

  /** An occurrence at the start is replaced, and the scan goes on after it. */
  lemma StrReplaceLeading(search: string, replace: string, rest: string)
    requires search != []
    ensures StrReplace(search, replace, search + rest) == replace + StrReplace(search, replace, rest)
  {
    assert (search + rest)[|search|..] == rest;
  }

  /** Where no occurrence starts, the first character is kept and the scan moves on by one. */
  lemma StrReplaceSkip(search: string, replace: string, c: char, rest: string)
    requires search != [] && !(search <= [c] + rest)
    ensures StrReplace(search, replace, [c] + rest) == [c] + StrReplace(search, replace, rest)
  {
    assert ([c] + rest)[1..] == rest;
  }

  /** The scan is single-pass: removing the marker "addon-" from "addaddon-on-"
      joins the text around it into a new "addon-", which stays in the result. */
  lemma StrReplaceSinglePass(marker: string)
    requires marker == "addon-"
    ensures StrReplace(marker, "", marker[..3] + marker + marker[3..]) == marker
  {
    var tail := marker[3..];
    StrReplaceAbsent(marker, "", tail);
    StrReplaceLeading(marker, "", tail);
    var s2 := [marker[2]] + (marker + tail);
    StrReplaceSkip(marker, "", marker[2], marker + tail);
    var s1 := [marker[1]] + s2;
    StrReplaceSkip(marker, "", marker[1], s2);
    assert s1[3] != marker[3];
    StrReplaceSkip(marker, "", marker[0], s1);
    assert marker[..3] + marker + tail == [marker[0]] + s1;
    assert [marker[0]] + ([marker[1]] + ([marker[2]] + tail)) == marker;
  }

  /** `substr(s, 0, n)` for n >= 0: the first n characters, or all of `s` when it is shorter. */
  function Head(s: string, n: nat): (r: string)
    ensures r <= s
    ensures |r| == if n <= |s| then n else |s|
  {
    if n <= |s| then s[..n] else s
  }

  /** Comparing `substr(s, 0, strlen(p))` with `p` is exactly the prefix test. */
  lemma HeadIsPrefixTest(s: string, p: string)
    ensures Head(s, |p|) == p <==> p <= s
  {
    if |p| > |s| {
      assert |Head(s, |p|)| != |p|;
    }
  }

  /** Index of the first occurrence of `c` in `s`. */
  function FirstIndexOf(s: string, c: char): (i: nat)
    requires c in s
    ensures i < |s| && s[i] == c
    ensures c !in s[..i]
  {
    if s[0] == c then 0
    else
      var j := FirstIndexOf(s[1..], c);
      assert s[..j + 1] == [s[0]] + s[1..][..j];
      j + 1
  }

  /** `explode(sep, s, 2)` when `sep` occurs in `s`: the text before the first
      `sep` and everything after it (later separators included). */
  function ExplodeOnce(s: string, sep: char): (parts: (string, string))
    requires sep in s
    ensures s == parts.0 + [sep] + parts.1
    ensures sep !in parts.0
  {
    var i := FirstIndexOf(s, sep);
    assert s == s[..i] + [sep] + s[i + 1..];
    (s[..i], s[i + 1..])
  }

  /** Splitting a joined string at its first separator gives back its parts. */
  lemma ExplodeOnceJoin(head: string, sep: char, tail: string)
    requires sep !in head
    ensures sep in head + [sep] + tail
    ensures ExplodeOnce(head + [sep] + tail, sep) == (head, tail)
  {
    var s := head + [sep] + tail;
    assert s[|head|] == sep;
    var (h, t) := ExplodeOnce(s, sep);
    assert h == s[..|head|] == head;
    assert t == s[|head| + 1..] == tail;
  }
}
