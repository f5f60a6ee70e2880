/**
 * The supplemental-work code tokenizer and the frequency table
 * (`str.split(",")`, `str.strip()`, `value_counts().sort_index()`).
 */
module Codes {
  import opened Strings
  import opened Sequences

  /** Python's `",".join(pieces)`. */
  function JoinComma(pieces: seq<string>): string {
    if pieces == [] then ""
    else if |pieces| == 1 then pieces[0]
    else pieces[0] + "," + JoinComma(pieces[1..])
  }

  /**
   * Python's `s.split(",")`: the pieces between commas, empty pieces included,
   * so `""` gives `[""]` and `"A,,B"` gives `["A", "", "B"]`.
   */
  function SplitComma(s: string): (r: seq<string>)
    ensures |r| == multiset(s)[','] + 1
    ensures forall i :: 0 <= i < |r| ==> ',' !in r[i]
    decreases |s|
  {
    if s == [] then [""]
    else
      var rest := SplitComma(s[1..]);
      assert s == [s[0]] + s[1..];
      if s[0] == ',' then
        [""] + rest
      else
        [[s[0]] + rest[0]] + rest[1..]
  }

  lemma JoinCons(a: string, rest: seq<string>)
    requires |rest| >= 1
    ensures JoinComma([a] + rest) == a + "," + JoinComma(rest)
  {
    assert ([a] + rest)[1..] == rest;
  }

  lemma JoinExtendFirst(x: string, rest: seq<string>)
    requires |rest| >= 1
    ensures JoinComma([x + rest[0]] + rest[1..]) == x + JoinComma(rest)
  {
    var y := [x + rest[0]] + rest[1..];
    if |rest| > 1 {
      JoinCons(x + rest[0], rest[1..]);
      JoinCons(rest[0], rest[1..]);
      AppendAssoc(x, rest[0], ",");
      AppendAssoc(x, rest[0] + ",", JoinComma(rest[1..]));
      assert rest == [rest[0]] + rest[1..];
    } else {
      assert y == [x + rest[0]];
    }
  }

  /** Joining the pieces of `s` with commas gives `s` back. */
  lemma {:induction false} JoinSplit(s: string)
    ensures JoinComma(SplitComma(s)) == s
    decreases |s|
  {
    if s != [] {
      var rest := SplitComma(s[1..]);
      JoinSplit(s[1..]);
      if s[0] == ',' {
        assert SplitComma(s) == [""] + rest;
        JoinCons("", rest);
        assert "" + "," + s[1..] == s;
      } else {
        assert SplitComma(s) == [[s[0]] + rest[0]] + rest[1..];
        JoinExtendFirst([s[0]], rest);
        assert [s[0]] + s[1..] == s;
      }
    }
  }

  lemma {:induction false} SplitCommaPrefix(a: string, t: string)
    requires ',' !in a
    ensures SplitComma(a + t) == [a + SplitComma(t)[0]] + SplitComma(t)[1..]
    decreases |a|
  {
    if a != [] {
      var s := a + t;
      assert s[0] == a[0] && s[1..] == a[1..] + t;
      SplitCommaPrefix(a[1..], t);
      var rest := SplitComma(s[1..]);
      assert SplitComma(s) == [[s[0]] + rest[0]] + rest[1..];
      assert [s[0]] + rest[0] == a + SplitComma(t)[0] by {
        assert a == [a[0]] + a[1..];
      }
    } else {
      var st := SplitComma(t);
      assert a + t == t && a + st[0] == st[0];
      assert st == [st[0]] + st[1..];
    }
  }

  /** A comma ends the first piece. */
  lemma SplitAtComma(a: string, t: string)
    requires ',' !in a
    ensures SplitComma(a + "," + t) == [a] + SplitComma(t)
  {
    var u := "," + t;
    assert u[0] == ',' && u[1..] == t;
    var su := SplitComma(u);
    assert su == [""] + SplitComma(t);
    assert su[0] == "" && su[1..] == SplitComma(t);
    SplitCommaPrefix(a, u);
    assert a + su[0] == a;
    assert a + "," + t == a + u;
  }

  /** Splitting a comma-join of comma-free pieces gives the pieces back. */
  lemma {:induction false} SplitJoin(pieces: seq<string>)
    requires |pieces| >= 1
    requires forall i :: 0 <= i < |pieces| ==> ',' !in pieces[i]
    ensures SplitComma(JoinComma(pieces)) == pieces
  {
    var a := pieces[0];
    if |pieces| == 1 {
      SplitCommaPrefix(a, "");
      assert a + "" == a;
      assert SplitComma("") == [""];
    } else {
      SplitJoin(pieces[1..]);
      SplitAtComma(a, JoinComma(pieces[1..]));
      assert pieces == [a] + pieces[1..];
    }
  }

  /**
   * The codes of one `TRAVAUX SUPPLEMENTAIRES` value: every comma-separated
   * piece, stripped, empty pieces kept.
   */
  function SplitCodes(s: string): (r: seq<string>)
    ensures |r| == multiset(s)[','] + 1
    ensures forall i :: 0 <= i < |r| ==> r[i] == Strip(SplitComma(s)[i])
  {
    var pieces := SplitComma(s);
    seq(|pieces|, i requires 0 <= i < |pieces| => Strip(pieces[i]))
  }

  /** One column of the frequency table: a code and how often it occurs. */
  datatype Entry = Entry(code: string, count: nat)

  function Keys(t: seq<Entry>): seq<string> {
    seq(|t|, i requires 0 <= i < |t| => t[i].code)
  }

  /** The count the table gives `k`, 0 when `k` is not a column. */
  function CountOf(t: seq<Entry>, k: string): nat {
    if t == [] then 0
    else if t[0].code == k then t[0].count
    else CountOf(t[1..], k)
  }

  /** The sum of all counts. */
  function Total(t: seq<Entry>): nat {
    if t == [] then 0 else t[0].count + Total(t[1..])
  }

  /** Columns in ascending order of code, each code once, every count positive. */
  predicate WellFormed(t: seq<Entry>) {
    StrictlyAscending(Keys(t)) && forall i :: 0 <= i < |t| ==> t[i].count >= 1
  }

  lemma {:induction false} CountOfAbsent(t: seq<Entry>, k: string)
    requires k !in Keys(t)
    ensures CountOf(t, k) == 0
  {
    if t != [] {
      assert Keys(t)[0] == t[0].code;
      assert Keys(t[1..]) == Keys(t)[1..];
      CountOfAbsent(t[1..], k);
    }
  }

  /** `r` is `t` with one more occurrence of `x` recorded. */
  ghost predicate Bumped(t: seq<Entry>, x: string, r: seq<Entry>) {
    && WellFormed(r)
    && (forall k :: k in Keys(r) <==> k in Keys(t) || k == x)
    && (forall k :: CountOf(r, k) == CountOf(t, k) + (if k == x then 1 else 0))
    && Total(r) == Total(t) + 1
  }

  lemma BumpFound(t: seq<Entry>, x: string)
    requires WellFormed(t) && t != [] && t[0].code == x
    ensures Bumped(t, x, [Entry(x, t[0].count + 1)] + t[1..])
  {
    var r := [Entry(x, t[0].count + 1)] + t[1..];
    assert Keys(r) == Keys(t) && Keys(t)[0] == x;
    assert r[1..] == t[1..];
    assert forall i :: 0 < i < |r| ==> r[i] == t[i];
  }

  lemma BumpBefore(t: seq<Entry>, x: string)
    requires WellFormed(t) && t != [] && Less(x, t[0].code)
    ensures Bumped(t, x, [Entry(x, 1)] + t)
  {
    assert x !in Keys(t) by {
      forall j | 0 <= j < |t| ensures Keys(t)[j] != x {
        if j > 0 {
          LessTransitive(x, Keys(t)[0], Keys(t)[j]);
        }
        LessIrreflexive(x);
      }
    }
    CountOfAbsent(t, x);
    var r := [Entry(x, 1)] + t;
    assert Keys(r) == [x] + Keys(t);
    assert r[1..] == t;
    assert Keys(t)[0] == t[0].code;
    forall i, j | 0 <= i < j < |r| ensures Less(Keys(r)[i], Keys(r)[j]) {
      if i == 0 && j > 1 {
        LessTransitive(x, Keys(t)[0], Keys(t)[j - 1]);
      }
    }
    assert forall k :: k != x ==> CountOf(r, k) == CountOf(t, k);
  }

  lemma BumpAfter(t: seq<Entry>, x: string, rest: seq<Entry>)
    requires WellFormed(t) && t != [] && Less(t[0].code, x)
    requires Bumped(t[1..], x, rest)
    ensures Bumped(t, x, [t[0]] + rest)
  {
    var r := [t[0]] + rest;
    assert Keys(r) == [t[0].code] + Keys(rest);
    assert r[1..] == rest;
    assert Keys(t) == [t[0].code] + Keys(t[1..]);
    assert Keys(t)[0] == t[0].code;
    forall y | y in Keys(rest) ensures Less(t[0].code, y) {
      if y != x {
        assert y in Keys(t[1..]);
        var j :| 0 <= j < |Keys(t[1..])| && Keys(t[1..])[j] == y;
        assert Keys(t)[j + 1] == y;
        assert Less(Keys(t)[0], Keys(t)[j + 1]);
      }
    }
    assert x != t[0].code by {
      LessIrreflexive(x);
    }
    forall i, j | 0 <= i < j < |r| ensures Less(Keys(r)[i], Keys(r)[j]) {
      if i == 0 {
        assert Keys(r)[j] == Keys(rest)[j - 1];
        assert Keys(rest)[j - 1] in Keys(rest);
      } else {
        assert Keys(r)[i] == Keys(rest)[i - 1] && Keys(r)[j] == Keys(rest)[j - 1];
      }
    }
    assert forall k :: k != t[0].code ==> CountOf(r, k) == CountOf(rest, k);
    assert forall k :: k != t[0].code ==> CountOf(t, k) == CountOf(t[1..], k);
    assert t[0].code !in Keys(rest) by {
      LessIrreflexive(t[0].code);
    }
    CountOfAbsent(rest, t[0].code);
    assert t[0].code !in Keys(t[1..]);
    CountOfAbsent(t[1..], t[0].code);
  }

  /** Records one more occurrence of `x`. */
  function Bump(t: seq<Entry>, x: string): (r: seq<Entry>)
    requires WellFormed(t)
    ensures WellFormed(r)
    ensures forall k :: k in Keys(r) <==> k in Keys(t) || k == x
    ensures forall k :: CountOf(r, k) == CountOf(t, k) + (if k == x then 1 else 0)
    ensures Total(r) == Total(t) + 1
  {
    if t == [] then
      assert Keys([Entry(x, 1)]) == [x];
      [Entry(x, 1)]
    else if t[0].code == x then
      BumpFound(t, x);
      [Entry(x, t[0].count + 1)] + t[1..]
    else if Less(x, t[0].code) then
      BumpBefore(t, x);
      [Entry(x, 1)] + t
    else
      LessTotal(x, t[0].code);
      assert Keys(t[1..]) == Keys(t)[1..];
      var rest := Bump(t[1..], x);
      BumpAfter(t, x, rest);
      [t[0]] + rest
  }

  /**
   * `value_counts().sort_index()` over a column of codes: one entry per
   * distinct code, in ascending order, counting its occurrences.
   */
  function Frequency(codes: seq<string>): (r: seq<Entry>)
    ensures WellFormed(r)
    ensures forall k :: k in Keys(r) <==> k in codes
    ensures forall k :: CountOf(r, k) == multiset(codes)[k]
    ensures Total(r) == |codes|
  {
    if codes == [] then []
    else
      assert codes == [codes[0]] + codes[1..];
      Bump(Frequency(codes[1..]), codes[0])
  }
}
