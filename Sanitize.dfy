/**
 * `clean_string`: removes the characters that a spreadsheet cell may not
 * hold (the C0 control characters U+0000..U+001F and DEL, U+007F) from a
 * string, and passes every value that is not a string through unchanged.
 */
module Sanitize {

  /** The character class `[\x00-\x1F\x7F]` of the substitution. */
  predicate IsControl(c: char) {
    c as int <= 0x1F || c as int == 0x7F
  }

  predicate NoControl(s: string) {
    forall i :: 0 <= i < |s| ==> !IsControl(s[i])
  }

  /** The number of occurrences of `c` in `s`. */
  function Count(s: string, c: char): nat {
    multiset(s)[c]
  }

  /** Deletes every control character of `s`, keeping the others in order. */
  function Clean(s: string): (r: string)
    ensures NoControl(r)
    ensures |r| <= |s|
    ensures forall i :: 0 <= i < |r| ==> r[i] in s
    decreases |s|
  {
    if s == [] then []
    else if IsControl(s[0]) then Clean(s[1..])
    else [s[0]] + Clean(s[1..])
  }

  /** A cell of the result table: a string, Python's `None`, or a number. */
  datatype Cell = Str(text: string) | Null | Number(n: int)

  /** `clean_string` on any cell value: only strings are touched. */
  function CleanCell(v: Cell): (r: Cell)
    ensures v.Str? <==> r.Str?
    ensures !v.Str? ==> r == v
    ensures v.Str? ==> r.text == Clean(v.text)
    ensures r.Str? ==> NoControl(r.text) && |r.text| <= |v.text|
  {
    match v
    case Str(s) => Str(Clean(s))
    case _ => v
  }

  /** Cleaning distributes over concatenation: the filter works character by character, in order. */
  lemma {:induction false} CleanAppend(a: string, b: string)
    ensures Clean(a + b) == Clean(a) + Clean(b)
    decreases |a|
  {
    if a == [] {
      assert a + b == b;
    } else {
      assert (a + b)[0] == a[0];
      assert (a + b)[1..] == a[1..] + b;
      CleanAppend(a[1..], b);
    }
  }

  /** Together with CleanAppend this fixes Clean completely: a control character is dropped, any other kept. */
  lemma CleanChar(c: char)
    ensures Clean([c]) == if IsControl(c) then [] else [c]
  {
    assert [c][1..] == [];
  }

  /** Every non-control character occurs in the output exactly as often as in the input; control characters not at all. */
  lemma {:induction false} CleanCounts(s: string, c: char)
    ensures Count(Clean(s), c) == if IsControl(c) then 0 else Count(s, c)
    decreases |s|
  {
    if s != [] {
      assert s == [s[0]] + s[1..];
      CleanCounts(s[1..], c);
      if !IsControl(s[0]) {
        assert multiset(Clean(s)) == multiset([s[0]]) + multiset(Clean(s[1..]));
      }
      assert multiset(s) == multiset([s[0]]) + multiset(s[1..]);
    } else if IsControl(c) {
      assert Clean(s) == [];
    }
  }

  /** A string without control characters is left as it is. */
  lemma {:induction false} CleanIdentity(s: string)
    requires NoControl(s)
    ensures Clean(s) == s
    decreases |s|
  {
    if s != [] {
      assert !IsControl(s[0]);
      CleanIdentity(s[1..]);
    }
  }

  /** Cleaning twice is the same as cleaning once. */
  lemma CleanIdempotent(s: string)
    ensures Clean(Clean(s)) == Clean(s)
  {
    CleanIdentity(Clean(s));
  }

  /** Cleaning never lengthens, and shortens exactly when a control character is present. */
  lemma {:induction false} CleanShortens(s: string)
    ensures |Clean(s)| == |s| <==> NoControl(s)
    decreases |s|
  {
    if s != [] {
      CleanShortens(s[1..]);
      if NoControl(s) {
        assert NoControl(s[1..]) by {
          forall i | 0 <= i < |s[1..]| ensures !IsControl(s[1..][i]) {
            assert s[1..][i] == s[i + 1];
          }
        }
      } else if !IsControl(s[0]) {
        assert !NoControl(s[1..]) by {
          var i :| 0 <= i < |s| && IsControl(s[i]);
          assert i > 0 && s[1..][i - 1] == s[i];
        }
      }
    }
  }
}
