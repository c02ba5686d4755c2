/** The Python string operations moneriote relies on: `str.split`, `str.join`,
    `str.strip`, line splitting, `str.replace`, `str.isdigit`/`int()`, `str.lower`
    and `str.endswith`, each with the facts the rest of the model needs. */
module Strings {
  import opened Values

  // ---------------------------------------------------------------------------
  // Searching

  /** `pat` occurs in `s` starting at index `i`. */
  predicate OccursAt(s: string, pat: string, i: nat)
  {
    i + |pat| <= |s| && s[i..i + |pat|] == pat
  }

  /** The first occurrence of `pat` in `s` at or after `i` (`str.find`). */
  function FindFrom(s: string, pat: string, i: nat): (r: Option<nat>)
    requires |pat| > 0
    ensures r.Some? ==> i <= r.value && OccursAt(s, pat, r.value)
    ensures r.Some? ==> forall j :: i <= j < r.value ==> !OccursAt(s, pat, j)
    ensures r.None? ==> forall j :: i <= j ==> !OccursAt(s, pat, j)
    decreases |s| - i
  {
    if i + |pat| > |s| then None
    else if OccursAt(s, pat, i) then Some(i)
    else FindFrom(s, pat, i + 1)
  }

  function Find(s: string, pat: string): (r: Option<nat>)
    requires |pat| > 0
    ensures r.Some? ==> OccursAt(s, pat, r.value)
    ensures r.Some? ==> forall j :: 0 <= j < r.value ==> !OccursAt(s, pat, j)
    ensures r.None? ==> forall j :: 0 <= j ==> !OccursAt(s, pat, j)
  {
    FindFrom(s, pat, 0)
  }

  /** Python's `pat in s` for strings. */
  predicate Contains(s: string, pat: string)
    requires |pat| > 0
  {
    Find(s, pat).Some?
  }

  // ---------------------------------------------------------------------------
  // split and join

  /** Python's `s.split(sep)`: the pieces between occurrences of `sep`, found
      left to right without overlap; there is always at least one piece. */
  function SplitOn(s: string, sep: string): (parts: seq<string>)
    requires |sep| > 0
    ensures |parts| >= 1
    decreases |s|
  {
    match Find(s, sep)
    case None => [s]
    case Some(k) => [s[..k]] + SplitOn(s[k + |sep|..], sep)
  }

  /** `s.split(c)` for a one-character separator. */
  function Split(s: string, c: char): (parts: seq<string>)
    ensures |parts| >= 1
  {
    SplitOn(s, [c])
  }

  /** Python's `sep.join(parts)`. */
  function Join(parts: seq<string>, sep: string): string
  {
    if |parts| == 0 then ""
    else if |parts| == 1 then parts[0]
    else parts[0] + sep + Join(parts[1..], sep)
  }

  lemma OccursAtChar(s: string, c: char, i: nat)
    ensures OccursAt(s, [c], i) <==> i < |s| && s[i] == c
  {
    if i < |s| {
      assert s[i..i + 1] == [s[i]];
    }
  }

  /** Shifting the start of the text by one shifts every later occurrence. */
  lemma {:induction false} FindFromShift(s: string, pat: string, i: nat)
    requires |pat| > 0 && |s| > 0 && i >= 1
    ensures FindFrom(s, pat, i) == (match FindFrom(s[1..], pat, i - 1)
                                    case None => None
                                    case Some(k) => Some(k + 1))
    decreases |s| - i
  {
    var t := s[1..];
    if i + |pat| <= |s| {
      assert OccursAt(s, pat, i) <==> OccursAt(t, pat, i - 1) by {
        assert s[i..i + |pat|] == t[i - 1..i - 1 + |pat|];
      }
      if !OccursAt(s, pat, i) {
        assert FindFrom(s, pat, i) == FindFrom(s, pat, i + 1);
        assert FindFrom(t, pat, i - 1) == FindFrom(t, pat, i);
        FindFromShift(s, pat, i + 1);
      }
    }
  }

  /** `Split` unfolded one character at a time: the shape the proofs below use. */
  lemma SplitUnfold(s: string, c: char)
    ensures |s| == 0 ==> Split(s, c) == [""]
    ensures |s| > 0 && s[0] == c ==> Split(s, c) == [""] + Split(s[1..], c)
    ensures |s| > 0 && s[0] != c ==>
      Split(s, c) == [[s[0]] + Split(s[1..], c)[0]] + Split(s[1..], c)[1..]
  {
    if |s| > 0 {
      OccursAtChar(s, c, 0);
      if s[0] == c {
        assert Find(s, [c]) == Some(0);
        assert s[1..] == s[0 + 1..];
      } else {
        FindFromShift(s, [c], 1);
        assert FindFrom(s, [c], 0) == FindFrom(s, [c], 1);
        match Find(s[1..], [c])
        case None =>
          assert Find(s, [c]) == None;
          assert [s[0]] + s[1..] == s;
        case Some(k) =>
          assert Find(s, [c]) == Some(k + 1);
          assert s[..k + 1] == [s[0]] + s[1..][..k];
          assert s[k + 1 + 1..] == s[1..][k + 1..];
      }
    }
  }

  /** No piece of a split contains the separator. */
  lemma {:induction false} SplitPartsFree(s: string, c: char)
    ensures forall i :: 0 <= i < |Split(s, c)| ==> c !in Split(s, c)[i]
    decreases |s|
  {
    SplitUnfold(s, c);
    if |s| > 0 {
      SplitPartsFree(s[1..], c);
    }
  }

  /** Joining the pieces of a split with the separator gives the text back. */
  lemma {:induction false} SplitJoin(s: string, c: char)
    ensures Join(Split(s, c), [c]) == s
    decreases |s|
  {
    SplitUnfold(s, c);
    if |s| > 0 {
      var rest := Split(s[1..], c);
      SplitJoin(s[1..], c);
      if s[0] == c {
        assert Split(s, c) == [""] + rest;
        assert Join([""] + rest, [c]) == "" + [c] + Join(rest, [c]);
      } else {
        var p := Split(s, c);
        assert p == [[s[0]] + rest[0]] + rest[1..];
        if |rest| == 1 {
          assert Join(p, [c]) == [s[0]] + rest[0];
        } else {
          assert p[1..] == rest[1..];
          assert Join(rest, [c]) == rest[0] + [c] + Join(rest[1..], [c]);
        }
      }
    }
  }

  /** Splitting the join of separator-free pieces gives the pieces back. */
  lemma {:induction false} JoinSplit(parts: seq<string>, c: char)
    requires |parts| >= 1
    requires forall i :: 0 <= i < |parts| ==> c !in parts[i]
    ensures Split(Join(parts, [c]), c) == parts
    decreases |parts|, |parts[0]|
  {
    if |parts[0]| == 0 {
      if |parts| == 1 {
        assert Join(parts, [c]) == "";
        SplitUnfold("", c);
      } else {
        JoinSplit(parts[1..], c);
        JoinSplitEmptyHead(parts, c);
      }
    } else {
      var shorter := [parts[0][1..]] + parts[1..];
      assert shorter[1..] == parts[1..];
      assert parts[0][0] != c by { assert parts[0][0] in parts[0]; }
      JoinSplit(shorter, c);
      JoinSplitCharHead(parts, c);
    }
  }

  /** The step of `JoinSplit` for an empty first piece: the text starts with
      the separator. */
  lemma JoinSplitEmptyHead(parts: seq<string>, c: char)
    requires |parts| >= 2 && parts[0] == ""
    requires Split(Join(parts[1..], [c]), c) == parts[1..]
    ensures Split(Join(parts, [c]), c) == parts
  {
    var s := Join(parts, [c]);
    assert s == [c] + Join(parts[1..], [c]);
    assert s[1..] == Join(parts[1..], [c]);
    SplitUnfold(s, c);
    assert parts == [""] + parts[1..];
  }

  /** The step of `JoinSplit` for a first piece starting with a character
      other than the separator: that character heads the first piece. */
  lemma JoinSplitCharHead(parts: seq<string>, c: char)
    requires |parts| >= 1 && |parts[0]| > 0 && parts[0][0] != c
    requires Split(Join([parts[0][1..]] + parts[1..], [c]), c) == [parts[0][1..]] + parts[1..]
    ensures Split(Join(parts, [c]), c) == parts
  {
    var head := parts[0];
    var t := Join([head[1..]] + parts[1..], [c]);
    JoinUncons(parts, [c]);
    SplitCons(head[0], t, c);
    assert [head[0]] + head[1..] == head;
    assert parts == [head] + parts[1..];
  }

  /** Splitting text that starts with a non-separator character: the
      character joins the first piece. */
  lemma SplitCons(x: char, t: string, c: char)
    requires x != c
    ensures Split([x] + t, c) == [[x] + Split(t, c)[0]] + Split(t, c)[1..]
  {
    SplitUnfold([x] + t, c);
    assert ([x] + t)[1..] == t;
  }

  /** A join whose first piece is non-empty starts with that piece's first
      character, followed by the join with the character removed. */
  lemma JoinUncons(parts: seq<string>, sep: string)
    requires |parts| >= 1 && |parts[0]| > 0
    ensures Join(parts, sep) == [parts[0][0]] + Join([parts[0][1..]] + parts[1..], sep)
  {
    var head := parts[0];
    var shorter := [head[1..]] + parts[1..];
    assert shorter[1..] == parts[1..];
    assert [head[0]] + head[1..] == head;
    if |parts| > 1 {
      assert Join(shorter, sep) == head[1..] + sep + Join(parts[1..], sep);
    }
  }

  /** Appending a piece to a join. */
  lemma {:induction false} JoinSnoc(parts: seq<string>, p: string, sep: string)
    requires |parts| >= 1
    ensures Join(parts + [p], sep) == Join(parts, sep) + sep + p
    decreases |parts|
  {
    if |parts| == 1 {
      assert parts + [p] == [parts[0], p];
    } else {
      assert (parts + [p])[1..] == parts[1..] + [p];
      JoinSnoc(parts[1..], p, sep);
    }
  }

  /** Joining the first `k` pieces of a split gives a prefix of the text; when
      pieces remain, the separator follows that prefix in the text. */
  lemma {:induction false} JoinSplitPrefix(s: string, c: char, k: nat)
    requires 1 <= k <= |Split(s, c)|
    ensures Join(Split(s, c)[..k], [c]) <= s
    ensures k < |Split(s, c)| ==>
      |Join(Split(s, c)[..k], [c])| < |s| && s[|Join(Split(s, c)[..k], [c])|] == c
    ensures k == |Split(s, c)| ==> Join(Split(s, c)[..k], [c]) == s
  {
    var parts := Split(s, c);
    SplitJoin(s, c);
    if k < |parts| {
      JoinAppendRest(parts[..k], parts[k..], [c]);
      assert parts[..k] + parts[k..] == parts;
    } else {
      assert parts[..k] == parts;
    }
  }

  lemma {:induction false} JoinAppendRest(front: seq<string>, back: seq<string>, sep: string)
    requires |front| >= 1 && |back| >= 1
    ensures Join(front + back, sep) == Join(front, sep) + sep + Join(back, sep)
    decreases |front|
  {
    if |front| == 1 {
      assert (front + back)[1..] == back;
    } else {
      assert (front + back)[1..] == front[1..] + back;
      JoinAppendRest(front[1..], back, sep);
    }
  }

  // ---------------------------------------------------------------------------
  // strip

  /** The characters Python's `str.strip()` removes (the ASCII ones). */
  predicate IsSpace(c: char)
  {
    c == ' ' || ('\t' <= c <= '\r') || ('\U{1c}' <= c <= '\U{1f}')
  }

  function StripRight(s: string): (r: string)
    ensures |r| <= |s| && r == s[..|r|]
    ensures forall k :: |r| <= k < |s| ==> IsSpace(s[k])
    ensures |r| > 0 ==> !IsSpace(r[|r| - 1])
  {
    if |s| > 0 && IsSpace(s[|s| - 1]) then StripRight(s[..|s| - 1]) else s
  }

  /** How many white-space characters `s` starts with. */
  function LeadingSpace(s: string): (n: nat)
    ensures n <= |s|
    ensures forall k :: 0 <= k < n ==> IsSpace(s[k])
    ensures n < |s| ==> !IsSpace(s[n])
  {
    if |s| > 0 && IsSpace(s[0]) then 1 + LeadingSpace(s[1..]) else 0
  }

  /** Python's `s.strip()`: the piece of `s` left after removing the leading
      and the trailing white space; it neither starts nor ends with white space. */
  function Strip(s: string): (r: string)
    ensures LeadingSpace(s) + |r| <= |s|
    ensures r == s[LeadingSpace(s)..LeadingSpace(s) + |r|]
    ensures forall k :: LeadingSpace(s) + |r| <= k < |s| ==> IsSpace(s[k])
    ensures |r| > 0 ==> !IsSpace(r[0]) && !IsSpace(r[|r| - 1])
  {
    var i := LeadingSpace(s);
    var r := StripRight(s[i..]);
    assert forall k :: i + |r| <= k < |s| ==> s[k] == s[i..][k - i];
    assert r == s[i..][..|r|] == s[i..i + |r|];
    r
  }

  // ---------------------------------------------------------------------------
  // Lines

  /** The lines of a text as Python's `str.splitlines()` and iteration over a
      text file produce them, taking '\n' as the line break: no trailing empty
      line after a final '\n', and no line at all for the empty text. */
  function Lines(text: string): (ls: seq<string>)
  {
    if |text| == 0 then []
    else
      var parts := Split(text, '\n');
      if parts[|parts| - 1] == "" then parts[..|parts| - 1] else parts
  }

  /** Lines never contain the break, and joining them with '\n' (plus the final
      '\n' when the text had one) rebuilds the text. */
  lemma LinesJoin(text: string)
    requires |text| > 0
    ensures forall i :: 0 <= i < |Lines(text)| ==> '\n' !in Lines(text)[i]
    ensures Join(Lines(text), "\n") + (if text[|text| - 1] == '\n' then "\n" else "") == text
  {
    var parts := Split(text, '\n');
    SplitPartsFree(text, '\n');
    SplitJoin(text, '\n');
    var n := |parts|;
    var last := parts[n - 1];
    if n == 1 {
      assert text == parts[0];
      assert last != "";
    } else {
      assert parts == parts[..n - 1] + [last];
      JoinSnoc(parts[..n - 1], last, "\n");
      assert text == Join(parts[..n - 1], "\n") + "\n" + last;
      if last != "" {
        assert text[|text| - 1] == last[|last| - 1];
        assert last[|last| - 1] in last;
      }
    }
  }

  /** The lines of newline-free entries written one per line are the entries. */
  lemma LinesOfJoin(entries: seq<string>)
    requires |entries| >= 1
    requires forall i :: 0 <= i < |entries| ==> '\n' !in entries[i]
    ensures Lines(Join(entries, "\n") + "\n") == entries
  {
    var text := Join(entries, "\n") + "\n";
    JoinSnoc(entries, "", "\n");
    assert Join(entries + [""], "\n") == text;
    JoinSplit(entries + [""], '\n');
    var parts := Split(text, '\n');
    assert parts == entries + [""];
    assert parts[..|parts| - 1] == entries;
  }

  // ---------------------------------------------------------------------------
  // Digits

  predicate IsDigit(c: char)
  {
    '0' <= c <= '9'
  }

  /** Python's `s.isdigit()` over ASCII: non-empty and only digits. */
  predicate IsDigits(s: string)
  {
    |s| > 0 && forall i :: 0 <= i < |s| ==> IsDigit(s[i])
  }

  /** `int(s)` for a string of decimal digits (leading zeros allowed). */
  function DigitsValue(s: string): nat
    requires forall i :: 0 <= i < |s| ==> IsDigit(s[i])
  {
    if |s| == 0 then 0
    else
      assert IsDigit(s[|s| - 1]);
      DigitsValue(s[..|s| - 1]) * 10 + (s[|s| - 1] as int - '0' as int)
  }

  /** `str(n)` for a natural number. */
  function ShowNat(n: nat): string
  {
    if n < 10 then [('0' as int + n) as char]
    else ShowNat(n / 10) + [('0' as int + n % 10) as char]
  }

  /** Printing a number and reading it back with `int()` gives the number. */
  lemma {:induction false} ShowNatRoundTrip(n: nat)
    ensures IsDigits(ShowNat(n))
    ensures DigitsValue(ShowNat(n)) == n
  {
    if n >= 10 {
      ShowNatRoundTrip(n / 10);
      var s := ShowNat(n);
      assert s[..|s| - 1] == ShowNat(n / 10);
    }
  }

  /** `re.sub('[^0-9]', '', s)`: the digits of `s`, in order. */
  function KeepDigits(s: string): (r: string)
    ensures forall i :: 0 <= i < |r| ==> IsDigit(r[i])
    ensures |r| <= |s|
  {
    if |s| == 0 then ""
    else (if IsDigit(s[0]) then [s[0]] else "") + KeepDigits(s[1..])
  }

  // ---------------------------------------------------------------------------
  // Other string methods

  /** Python's `s.replace(pat, rep)`: every non-overlapping occurrence of `pat`,
      found from the left, is replaced. */
  function ReplaceAll(s: string, pat: string, rep: string): string
    requires |pat| > 0
    decreases |s|
  {
    match Find(s, pat)
    case None => s
    case Some(k) => s[..k] + rep + ReplaceAll(s[k + |pat|..], pat, rep)
  }

  /** Replacing a character by a text without it leaves none of it, and a
      character absent from the text and the replacement stays absent. */
  lemma {:induction false} ReplaceAllChar(s: string, pat: string, rep: string, c: char)
    requires |pat| > 0
    requires c !in rep
    requires c !in s || pat == [c]
    ensures c !in ReplaceAll(s, pat, rep)
    decreases |s|
  {
    match Find(s, pat)
    case None =>
      if c in s {
        var i :| 0 <= i < |s| && s[i] == c;
        OccursAtChar(s, c, i);
      }
    case Some(k) =>
      if c in s[..k] {
        var i :| 0 <= i < k && s[..k][i] == c;
        OccursAtChar(s, c, i);
      }
      ReplaceAllChar(s[k + |pat|..], pat, rep, c);
  }

  /** Python's `s.lower()` over ASCII letters. */
  function Lower(s: string): (r: string)
    ensures |r| == |s|
    ensures forall i :: 0 <= i < |s| ==> r[i] == if 'A' <= s[i] <= 'Z' then (s[i] as int + 32) as char else s[i]
  {
    if |s| == 0 then ""
    else [if 'A' <= s[0] <= 'Z' then (s[0] as int + 32) as char else s[0]] + Lower(s[1..])
  }

  /** Python's `s.endswith(suffix)`. */
  predicate EndsWith(s: string, suffix: string)
  {
    |suffix| <= |s| && s[|s| - |suffix|..] == suffix
  }
}
