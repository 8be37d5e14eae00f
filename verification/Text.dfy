/** ASCII text helpers shared by the document, currency and line normalisers. */
module Text {

  predicate IsDigit(c: char) { '0' <= c <= '9' }

  predicate IsUpperAlnum(c: char) { IsDigit(c) || 'A' <= c <= 'Z' }

  predicate IsSpace(c: char) { c == ' ' || c == '\t' || c == '\r' || c == '\n' }

  lemma Characters(c: char)
    ensures IsDigit(c) <==> c in "0123456789"
    ensures IsUpperAlnum(c) <==> c in "0123456789ABCDEFGHIJKLMNOPQRSTUVWXYZ"
    ensures IsSpace(c) <==> c in " \t\r\n"
  {
    assert forall d: char :: d in "0123456789" <==> '0' <= d <= '9';
  }

  predicate All(s: string, p: char -> bool) { forall i :: 0 <= i < |s| ==> p(s[i]) }

  /** `replace(/[^...]/g, '')`: keeps the characters satisfying p, in order. */
  function Keep(s: string, p: char -> bool): (r: string)
    ensures All(r, p)
    ensures |r| <= |s|
  {
    if s == "" then "" else (if p(s[0]) then [s[0]] else "") + Keep(s[1..], p)
  }

  lemma {:induction false} KeepAll(s: string, p: char -> bool)
    requires All(s, p)
    ensures Keep(s, p) == s
  {
    if s != "" {
      KeepAll(s[1..], p);
    }
  }

  lemma {:induction false} KeepConcat(s: string, t: string, p: char -> bool)
    ensures Keep(s + t, p) == Keep(s, p) + Keep(t, p)
  {
    if s == "" {
      assert s + t == t;
    } else {
      var head := if p(s[0]) then [s[0]] else "";
      calc {
        Keep(s + t, p);
        { assert (s + t)[0] == s[0] && (s + t)[1..] == s[1..] + t; }
        head + Keep(s[1..] + t, p);
        { KeepConcat(s[1..], t, p); }
        head + (Keep(s[1..], p) + Keep(t, p));
        (head + Keep(s[1..], p)) + Keep(t, p);
        Keep(s, p) + Keep(t, p);
      }
    }
  }

  lemma {:induction false} KeepNone(s: string, p: char -> bool)
    requires forall i :: 0 <= i < |s| ==> !p(s[i])
    ensures Keep(s, p) == ""
  {
    if s != "" {
      KeepNone(s[1..], p);
    }
  }

  function UpperChar(c: char): char {
    if 'a' <= c <= 'z' then (c as int - 32) as char else c
  }

  function Upper(s: string): (r: string)
    ensures |r| == |s|
    ensures forall i :: 0 <= i < |s| ==> r[i] == UpperChar(s[i])
  {
    seq(|s|, i requires 0 <= i < |s| => UpperChar(s[i]))
  }

  lemma UpperIdempotent(s: string)
    ensures Upper(Upper(s)) == Upper(s)
  {
    assert forall i :: 0 <= i < |s| ==> Upper(Upper(s))[i] == Upper(s)[i];
  }

  /** `toUpperCase().replace(/[^A-Z0-9]/g, '')` */
  function CleanDocument(raw: string): string { Keep(Upper(raw), IsUpperAlnum) }

  function TrimLeft(s: string): (r: string)
    ensures |r| <= |s| && r == s[|s| - |r|..]
    ensures r != "" ==> !IsSpace(r[0])
  {
    if s != "" && IsSpace(s[0]) then TrimLeft(s[1..]) else s
  }

  function TrimRight(s: string): (r: string)
    ensures r <= s
    ensures r != "" ==> !IsSpace(r[|r| - 1])
  {
    if s != "" && IsSpace(s[|s| - 1]) then TrimRight(s[..|s| - 1]) else s
  }

  function Trim(s: string): (r: string)
    ensures |r| <= |s|
    ensures r != "" ==> !IsSpace(r[0]) && !IsSpace(r[|r| - 1])
  {
    TrimRight(TrimLeft(s))
  }

  /** Text that neither starts nor ends with a space is its own trim. */
  lemma TrimFixed(s: string)
    requires s == "" || (!IsSpace(s[0]) && !IsSpace(s[|s| - 1]))
    ensures Trim(s) == s
  {
  }

  /** Capitals: the 26 letters move, in order, and nothing else does. */
  lemma UpperTable(c: char)
    ensures 'a' <= c <= 'z' ==> 'A' <= UpperChar(c) <= 'Z' && UpperChar(c) as int - 'A' as int == c as int - 'a' as int
    ensures !('a' <= c <= 'z') ==> UpperChar(c) == c
  {
  }

  /** Trimming takes off the spaces around a text, and nothing else. */
  lemma TrimExactly(before: string, s: string, after: string)
    requires All(before, IsSpace) && All(after, IsSpace)
    requires s != "" && !IsSpace(s[0]) && !IsSpace(s[|s| - 1])
    ensures Trim(before + s + after) == s
  {
    TrimLeftStops(before, s + after);
    assert before + s + after == before + (s + after);
    TrimRightStops(s, after);
  }

  lemma {:induction false} TrimLeftStops(before: string, s: string)
    requires All(before, IsSpace) && s != "" && !IsSpace(s[0])
    ensures TrimLeft(before + s) == s
  {
    if before == "" {
      assert before + s == s;
    } else {
      assert (before + s)[1..] == before[1..] + s;
      TrimLeftStops(before[1..], s);
    }
  }

  lemma {:induction false} TrimRightStops(s: string, after: string)
    requires All(after, IsSpace) && s != "" && !IsSpace(s[|s| - 1])
    ensures TrimRight(s + after) == s
  {
    if after == "" {
      assert s + after == s;
    } else {
      assert (s + after)[..|s + after| - 1] == s + after[..|after| - 1];
      TrimRightStops(s, after[..|after| - 1]);
    }
  }

  /** Only a text of spaces trims to nothing. */
  lemma {:induction false} TrimsToNothing(s: string)
    ensures Trim(s) == "" <==> All(s, IsSpace)
  {
    if s != "" {
      if IsSpace(s[0]) {
        TrimsToNothing(s[1..]);
        assert forall i :: 1 <= i < |s| ==> s[i] == s[1..][i - 1];
      } else {
        LeadingStays(s);
      }
    }
  }

  lemma {:induction false} LeadingStays(s: string)
    requires s != "" && !IsSpace(s[0])
    ensures TrimRight(s) != ""
  {
    if IsSpace(s[|s| - 1]) {
      LeadingStays(s[..|s| - 1]);
    }
  }
}
