/** Strings as the exporter prints them and the spreadsheet script reads them: splitting, trimming, sorting. */
module Text {
  import Decimals

  /** The characters JavaScript's `trim` removes. */
  predicate IsSpace(c: char) {
    || c == ' ' || '\U{0009}' <= c <= '\U{000D}' || c == '\U{00A0}' || c == '\U{1680}'
    || '\U{2000}' <= c <= '\U{200A}' || c == '\U{2028}' || c == '\U{2029}' || c == '\U{202F}'
    || c == '\U{205F}' || c == '\U{3000}' || c == '\U{FEFF}'
  }

  function TrimLeft(s: string): string {
    if s != "" && IsSpace(s[0]) then TrimLeft(s[1..]) else s
  }

  function TrimRight(s: string): string {
    if s != "" && IsSpace(s[|s| - 1]) then TrimRight(s[..|s| - 1]) else s
  }

  function Trim(s: string): string {
    TrimRight(TrimLeft(s))
  }

  predicate Trimmed(s: string) {
    s == "" || (!IsSpace(s[0]) && !IsSpace(s[|s| - 1]))
  }

  lemma TrimOfTrimmed(s: string)
    requires Trimmed(s)
    ensures Trim(s) == s && Trim(" " + s) == s
  {
    assert (" " + s)[1..] == s;
  }

  lemma NotBlank(s: string)
    requires s != "" && !IsSpace(s[0])
    ensures Trim(s) != ""
  {
    FirstStays(s);
  }

  lemma {:induction false} FirstStays(s: string)
    requires s != "" && !IsSpace(s[0])
    ensures TrimRight(s) != ""
  {
    if |s| > 1 {
      FirstStays(s[..|s| - 1]);
    }
  }

  predicate Without(s: string, c: char) {
    forall i :: 0 <= i < |s| ==> s[i] != c
  }

  /** `split` on one character: one more piece than there are separators. */
  function Split(s: string, sep: char): (pieces: seq<string>)
    ensures pieces != []
  {
    if s == "" then [""]
    else
      var rest := Split(s[1..], sep);
      if s[0] == sep then [""] + rest else [[s[0]] + rest[0]] + rest[1..]
  }

  lemma {:induction false} SplitWhole(s: string, sep: char)
    requires Without(s, sep)
    ensures Split(s, sep) == [s]
  {
    if s != "" {
      SplitWhole(s[1..], sep);
      assert [s[0]] + s[1..] == s;
    }
  }

  lemma {:induction false} SplitFirst(a: string, sep: char, b: string)
    requires Without(a, sep)
    ensures Split(a + [sep] + b, sep) == [a] + Split(b, sep)
  {
    var s := a + [sep] + b;
    if a == "" {
      assert s[1..] == b;
    } else {
      assert s[1..] == a[1..] + [sep] + b;
      SplitFirst(a[1..], sep, b);
      assert [s[0]] + a[1..] == a;
      assert ([a[1..]] + Split(b, sep))[1..] == Split(b, sep);
    }
  }

  lemma {:induction false} SplitJoin(a: string, sep: char, b: string)
    ensures Split(a + [sep] + b, sep) == Split(a, sep) + Split(b, sep)
  {
    var s := a + [sep] + b;
    if a == "" {
      assert s[1..] == b;
    } else {
      assert s[1..] == a[1..] + [sep] + b;
      SplitJoin(a[1..], sep, b);
    }
  }

  function Join(pieces: seq<string>, sep: char): string {
    if pieces == [] then "" else if |pieces| == 1 then pieces[0] else pieces[0] + [sep] + Join(pieces[1..], sep)
  }

  /** The pieces of a split are free of the separator, and joined they are the text. */
  lemma {:induction false} JoinOfSplit(s: string, sep: char)
    ensures Join(Split(s, sep), sep) == s
    ensures forall i :: 0 <= i < |Split(s, sep)| ==> Without(Split(s, sep)[i], sep)
  {
    if s != "" {
      JoinOfSplit(s[1..], sep);
      var rest := Split(s[1..], sep);
      var pieces := Split(s, sep);
      assert s == [s[0]] + s[1..];
      if s[0] == sep {
        assert pieces[1..] == rest;
        assert Join(pieces, sep) == "" + [sep] + s[1..];
      } else {
        assert pieces[1..] == rest[1..] && pieces[0] == [s[0]] + rest[0];
        if |rest| > 1 {
          assert Join(pieces, sep) == [s[0]] + (rest[0] + [sep] + Join(rest[1..], sep));
        }
        forall i | 0 <= i < |pieces| ensures Without(pieces[i], sep) {
          if i > 0 {
            assert pieces[i] == rest[i];
          }
        }
      }
    }
  }

  predicate AllSpace(s: string) {
    forall i :: 0 <= i < |s| ==> IsSpace(s[i])
  }

  /** Visible ASCII characters are no space; blanks, tabs and line ends are. */
  lemma VisibleIsNoSpace(c: char)
    ensures '!' <= c <= '~' ==> !IsSpace(c)
    ensures c in " \t\n\r" ==> IsSpace(c)
  {
  }

  /** Trimming takes away surrounding space and nothing else. */
  lemma {:induction false} TrimStrips(before: string, s: string, after: string)
    requires AllSpace(before) && AllSpace(after) && Trimmed(s)
    ensures Trim(before + s + after) == s
    decreases |before| + |after|
  {
    if before != "" {
      var t := before + s + after;
      assert t[1..] == before[1..] + s + after;
      TrimStrips(before[1..], s, after);
    } else {
      assert before + s + after == s + after;
      if s == "" {
        SpaceIsNothing(after);
        assert s + after == after;
      } else {
        assert TrimLeft(s + after) == s + after;
        TrimRightStrips(s, after);
      }
    }
  }

  lemma {:induction false} SpaceIsNothing(s: string)
    requires AllSpace(s)
    ensures TrimLeft(s) == ""
  {
    if s != "" {
      SpaceIsNothing(s[1..]);
    }
  }

  lemma {:induction false} TrimRightStrips(s: string, after: string)
    requires AllSpace(after) && s != "" && !IsSpace(s[|s| - 1])
    ensures TrimRight(s + after) == s
  {
    if after == "" {
      assert s + after == s;
    } else {
      var n := |after| - 1;
      assert (s + after)[..|s + after| - 1] == s + after[..n] && (s + after)[|s + after| - 1] == after[n];
      TrimRightStrips(s, after[..n]);
    }
  }

  // ---------------------------------------------------------------- sorted sets of strings

  predicate IsFirst(m: string, s: set<string>) {
    m in s && forall x :: x in s && x != m ==> Decimals.Before(m, x)
  }

  lemma FirstExists(s: set<string>)
    requires s != {}
    ensures exists m :: IsFirst(m, s)
  {
    var x :| x in s;
    if s == {x} {
      assert IsFirst(x, s);
    } else {
      FirstExists(s - {x});
      var m :| IsFirst(m, s - {x});
      Decimals.BeforeTotal(x, m);
      var first := if Decimals.Before(x, m) then x else m;
      forall y | y in s && y != first ensures Decimals.Before(first, y) {
        if first == x && y != m {
          Decimals.BeforeTransitive(x, m, y);
        }
      }
      assert IsFirst(first, s);
    }
  }

  lemma FirstUnique(a: string, b: string, s: set<string>)
    requires IsFirst(a, s) && IsFirst(b, s)
    ensures a == b
  {
    Decimals.BeforeTotal(a, b);
  }

  function First(s: set<string>): (m: string)
    requires s != {}
    ensures IsFirst(m, s)
  {
    FirstExists(s);
    assert forall a, b :: IsFirst(a, s) && IsFirst(b, s) ==> a == b by {
      forall a, b | IsFirst(a, s) && IsFirst(b, s) ensures a == b {
        FirstUnique(a, b, s);
      }
    }
    var m :| IsFirst(m, s);
    m
  }

  predicate StrictlySorted(k: seq<string>) {
    forall i, j :: 0 <= i < j < |k| ==> Decimals.Before(k[i], k[j]) && k[i] != k[j]
  }

  /** The strings of a set in lexicographic order, which fixes the sequence. */
  function Sorted(s: set<string>): (k: seq<string>)
    ensures forall x :: x in k <==> x in s
    ensures |k| == |s|
  {
    if s == {} then []
    else
      var m := First(s);
      [m] + Sorted(s - {m})
  }

  lemma {:induction false} SortedIncreases(s: set<string>)
    ensures StrictlySorted(Sorted(s))
  {
    if s != {} {
      var m := First(s);
      var rest := Sorted(s - {m});
      SortedIncreases(s - {m});
      var k := Sorted(s);
      assert k == [m] + rest;
      forall i, j | 0 <= i < j < |k| ensures Decimals.Before(k[i], k[j]) && k[i] != k[j] {
        assert k[j] == rest[j - 1];
        if i == 0 {
          assert k[i] == m && rest[j - 1] in rest && rest[j - 1] in s - {m};
        } else {
          assert k[i] == rest[i - 1];
        }
      }
    }
  }
}
