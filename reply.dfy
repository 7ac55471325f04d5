/** Reading the `SELECT MIN(col), MAX(col)` reply that `psql -t` prints: the reply
    is split on `|`, every field is stripped of white space, and the first two
    fields are read with `int()`. */
module Reply {
  import opened Decimal

  /** Why `int(minmax[0]), int(minmax[1])` raises: a field that is not an
      integer (`ValueError`; an empty table prints empty fields), or a reply with
      no second field (`IndexError`). */
  datatype ReplyError = NotAnInteger(field: string) | MissingField

  datatype Parsed<T> = Ok(value: T) | Err(error: ReplyError)

  const Separator := '|'

  /** `str.isspace()` on the ASCII range: tab, line feed, vertical tab, form
      feed, carriage return, the four separator controls and space. */
  predicate IsSpace(c: char) {
    9 <= c as int <= 13 || 28 <= c as int <= 32
  }

  predicate AllSpace(s: string) {
    forall i :: 0 <= i < |s| ==> IsSpace(s[i])
  }

  /** Python's `s.split(sep)`: the pieces between separators, always at least one. */
  function Split(s: string, sep: char): (pieces: seq<string>)
    ensures |pieces| >= 1
    ensures forall i :: 0 <= i < |pieces| ==> sep !in pieces[i]
    ensures |pieces| >= 2 ==> sep in s
  {
    if s == [] then [""]
    else
      var rest := Split(s[1..], sep);
      if s[0] == sep then [""] + rest else [[s[0]] + rest[0]] + rest[1..]
  }

  /** `sep.join(pieces)`, the inverse of `Split`. */
  function Join(pieces: seq<string>, sep: char): string
    requires |pieces| >= 1
  {
    if |pieces| == 1 then pieces[0] else pieces[0] + [sep] + Join(pieces[1..], sep)
  }

  /** Nothing of the reply is lost by splitting it: joining the pieces again
      gives the reply back. */
  lemma {:induction false} JoinSplit(s: string, sep: char)
    ensures Join(Split(s, sep), sep) == s
  {
    if s != [] {
      var rest := Split(s[1..], sep);
      JoinSplit(s[1..], sep);
      if s[0] != sep {
        var pieces := Split(s, sep);
        if |rest| == 1 {
          assert pieces == [[s[0]] + rest[0]];
        } else {
          assert pieces[1..] == rest[1..];
        }
      }
    }
  }

  /** Text without the separator is one piece. */
  lemma {:induction false} SplitNoSeparator(a: string, sep: char)
    requires sep !in a
    ensures Split(a, sep) == [a]
  {
    if a != [] {
      assert sep !in a[1..] by {
        forall c | c in a[1..] ensures c != sep { assert c in a; }
      }
      SplitNoSeparator(a[1..], sep);
      assert [a[0]] + a[1..] == a;
    }
  }

  /** A separator after text without one ends the first piece there. */
  lemma {:induction false} SplitAtFirst(a: string, sep: char, t: string)
    requires sep !in a
    ensures Split(a + [sep] + t, sep) == [a] + Split(t, sep)
  {
    var s := a + [sep] + t;
    if a == [] {
      assert s[1..] == t;
    } else {
      assert s[0] == a[0] != sep;
      assert s[1..] == a[1..] + [sep] + t;
      assert sep !in a[1..] by {
        forall c | c in a[1..] ensures c != sep { assert c in a; }
      }
      SplitAtFirst(a[1..], sep, t);
      assert [a[0]] + a[1..] == a;
    }
  }

  /** The number of white-space characters `s.lstrip()` removes. */
  function LeadingSpace(s: string): (k: nat)
    ensures k <= |s| && AllSpace(s[..k])
    ensures k == |s| || !IsSpace(s[k])
  {
    if s != [] && IsSpace(s[0]) then
      var k := LeadingSpace(s[1..]);
      assert s[..k + 1] == [s[0]] + s[1..][..k];
      k + 1
    else 0
  }

  /** Where the white space that `s.rstrip()` removes begins. */
  function TrailingSpaceStart(s: string): (k: nat)
    ensures k <= |s| && AllSpace(s[k..])
    ensures k == 0 || !IsSpace(s[k - 1])
  {
    if s != [] && IsSpace(s[|s| - 1]) then
      var k := TrailingSpaceStart(s[..|s| - 1]);
      assert s[k..] == s[..|s| - 1][k..] + [s[|s| - 1]];
      k
    else |s|
  }

  /** `s.strip()`: the text between the leading and the trailing white space. */
  function Strip(s: string): (r: string)
    ensures r == [] || (!IsSpace(r[0]) && !IsSpace(r[|r| - 1]))
  {
    var t := s[LeadingSpace(s)..];
    t[..TrailingSpaceStart(t)]
  }

  /** The white space `lstrip` removes is the longest white-space prefix. */
  lemma {:induction false} LeadingSpaceIs(s: string, k: nat)
    requires k <= |s| && AllSpace(s[..k])
    requires k == |s| || !IsSpace(s[k])
    ensures LeadingSpace(s) == k
  {
    if k > 0 {
      assert IsSpace(s[..k][0]);
      assert s[1..][..k - 1] == s[..k][1..];
      LeadingSpaceIs(s[1..], k - 1);
    }
  }

  /** The white space `rstrip` removes is the longest white-space suffix. */
  lemma {:induction false} TrailingSpaceStartIs(s: string, k: nat)
    requires k <= |s| && AllSpace(s[k..])
    requires k == 0 || !IsSpace(s[k - 1])
    ensures TrailingSpaceStart(s) == k
  {
    if k < |s| {
      assert IsSpace(s[k..][|s| - 1 - k]);
      assert s[..|s| - 1][k..] == s[k..][..|s| - 1 - k];
      TrailingSpaceStartIs(s[..|s| - 1], k);
    }
  }

  /** White space around text that neither starts nor ends with white space is
      exactly what `strip()` removes; on white space alone `strip()` gives "". */
  lemma StripPadded(w1: string, x: string, w2: string)
    requires AllSpace(w1) && AllSpace(w2)
    requires x == [] || (!IsSpace(x[0]) && !IsSpace(x[|x| - 1]))
    ensures Strip(w1 + x + w2) == x
  {
    var s := w1 + x + w2;
    if x == [] {
      assert s == w1 + w2;
      assert s[..|s|] == s;
      LeadingSpaceIs(s, |s|);
      assert s[|s|..] == [];
    } else {
      assert s[..|w1|] == w1;
      assert s[|w1|] == x[0];
      LeadingSpaceIs(s, |w1|);
      var t := s[|w1|..];
      assert t == x + w2;
      assert t[|x|..] == w2;
      assert t[|x| - 1] == x[|x| - 1];
      TrailingSpaceStartIs(t, |x|);
      assert t[..|x|] == x;
    }
  }

  /** `get_min_max_val`: split the reply on `|`, strip every field, and read the
      first two fields as integers, the first before the second. */
  function ParseMinMax(reply: string): (r: Parsed<(int, int)>)
    ensures r.Ok? ==> Separator in reply
    ensures r.Err? && r.error.NotAnInteger? ==> ParseInt(r.error.field).None?
  {
    var fields := Split(reply, Separator);
    var lo := ParseInt(Strip(fields[0]));
    if lo.None? then Err(NotAnInteger(Strip(fields[0])))
    else if |fields| < 2 then Err(MissingField)
    else
      var hi := ParseInt(Strip(fields[1]));
      if hi.None? then Err(NotAnInteger(Strip(fields[1]))) else Ok((lo.value, hi.value))
  }

  /** One field holding the decimal text of `n`, padded with white space: it has
      no separator in it, and stripping and reading it gives `n`. */
  lemma FieldReads(n: int, w1: string, w2: string)
    requires AllSpace(w1) && AllSpace(w2)
    ensures Separator !in w1 + Show(n) + w2
    ensures ParseInt(Strip(w1 + Show(n) + w2)) == Some(n)
  {
    var x := Show(n);
    var a := w1 + x + w2;
    ShowChars(n);
    forall i | 0 <= i < |a| ensures a[i] != Separator {
      if i < |w1| {
        assert a[i] == w1[i];
      } else if i < |w1| + |x| {
        assert a[i] == x[i - |w1|];
      } else {
        assert a[i] == w2[i - |w1| - |x|];
      }
    }
    StripPadded(w1, x, w2);
    ParseShow(n);
  }

  /** Two fields without a separator, joined by one, split back into the two. */
  lemma SplitTwoFields(a: string, b: string)
    requires Separator !in a && Separator !in b
    ensures Split(a + [Separator] + b, Separator) == [a, b]
  {
    SplitAtFirst(a, Separator, b);
    SplitNoSeparator(b, Separator);
  }

  /** A reply carrying the decimal text of `lo` and `hi` in two fields, padded
      with any white space, is read back as `(lo, hi)`. */
  lemma ParseMinMaxReadsBounds(lo: int, hi: int, w1: string, w2: string, w3: string, w4: string)
    requires AllSpace(w1) && AllSpace(w2) && AllSpace(w3) && AllSpace(w4)
    ensures var a, b := w1 + Show(lo) + w2, w3 + Show(hi) + w4;
      ParseMinMax(a + [Separator] + b) == Ok((lo, hi))
  {
    var a, b := w1 + Show(lo) + w2, w3 + Show(hi) + w4;
    FieldReads(lo, w1, w2);
    FieldReads(hi, w3, w4);
    SplitTwoFields(a, b);
  }

  /** An empty table: `MIN` and `MAX` are NULL and `psql` prints nothing in the
      first field, so `int('')` fails before the second field is looked at. */
  lemma EmptyFirstFieldRejected(w: string, rest: string)
    requires AllSpace(w)
    ensures ParseMinMax(w + [Separator] + rest) == Err(NotAnInteger(""))
  {
    assert Separator !in w by {
      forall i | 0 <= i < |w| ensures w[i] != Separator {
        assert IsSpace(w[i]);
      }
    }
    SplitAtFirst(w, Separator, rest);
    StripPadded(w, "", []);
    assert w + "" + [] == w;
    ParseIntNeedsDigit("");
  }

  /** A reply without a separator fails: the first field is not an integer or
      there is no second field. */
  lemma NoSeparatorRejected(reply: string)
    requires Separator !in reply
    ensures ParseMinMax(reply).Err?
    ensures ParseInt(Strip(reply)).Some? ==> ParseMinMax(reply) == Err(MissingField)
  {
    SplitNoSeparator(reply, Separator);
  }

  /** Padding adds no separator to a field. */
  lemma PaddedNoSeparator(w1: string, x: string, w2: string)
    requires AllSpace(w1) && AllSpace(w2) && Separator !in x
    ensures Separator !in w1 + x + w2
  {
    var a := w1 + x + w2;
    forall i | 0 <= i < |a| ensures a[i] != Separator {
      if i < |w1| {
        assert IsSpace(a[i]);
      } else if i < |w1| + |x| {
        assert a[i] == x[i - |w1|];
      } else {
        assert IsSpace(w2[i - |w1| - |x|]);
      }
    }
  }

  /** A first field whose stripped text has a non-digit after its first
      character, as `1.5` for the `MIN` of a `numeric` column, fails with
      `NotAnInteger` of that text, whatever follows it. */
  lemma InnerNonDigitRejected(w1: string, x: string, w2: string, rest: string, i: int)
    requires AllSpace(w1) && AllSpace(w2)
    requires x != [] && !IsSpace(x[0]) && !IsSpace(x[|x| - 1]) && Separator !in x
    requires 0 < i < |x| && !IsDigit(x[i])
    ensures ParseMinMax(w1 + x + w2 + [Separator] + rest) == Err(NotAnInteger(x))
  {
    PaddedNoSeparator(w1, x, w2);
    SplitAtFirst(w1 + x + w2, Separator, rest);
    StripPadded(w1, x, w2);
    ParseIntRejectsInnerNonDigit(x, i);
  }

  /** When `MIN` reads as an integer but the second field's stripped text has a
      non-digit after its first character, the read fails with `NotAnInteger`
      of the second field. */
  lemma SecondFieldRejected(lo: int, w1: string, w2: string,
                            w3: string, x: string, w4: string, i: int)
    requires AllSpace(w1) && AllSpace(w2) && AllSpace(w3) && AllSpace(w4)
    requires x != [] && !IsSpace(x[0]) && !IsSpace(x[|x| - 1]) && Separator !in x
    requires 0 < i < |x| && !IsDigit(x[i])
    ensures ParseMinMax(w1 + Show(lo) + w2 + [Separator] + (w3 + x + w4)) == Err(NotAnInteger(x))
  {
    FieldReads(lo, w1, w2);
    PaddedNoSeparator(w3, x, w4);
    SplitTwoFields(w1 + Show(lo) + w2, w3 + x + w4);
    StripPadded(w3, x, w4);
    ParseIntRejectsInnerNonDigit(x, i);
  }
}
