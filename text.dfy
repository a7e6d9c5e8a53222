/** String primitives the exporter relies on: ASCII case folding, Python's
    `needle in hay` substring test, `str.replace` with a one-character pattern,
    and `str.join`. */
module Text {

  datatype Option<T> = None | Some(value: T)

  /** ASCII stand-in for Python's `str.lower()` on one character. */
  function LowerChar(c: char): char {
    if 'A' <= c <= 'Z' then (c as int + 32) as char else c
  }

  function Lower(s: string): (r: string)
    ensures |r| == |s|
    ensures forall i :: 0 <= i < |s| ==> r[i] == LowerChar(s[i])
  {
    if s == [] then [] else [LowerChar(s[0])] + Lower(s[1..])
  }

  /** Lowering never changes a character that is not an upper-case letter. */
  lemma LowerKeeps(s: string, c: char)
    requires !('A' <= c <= 'Z') && !('a' <= c <= 'z')
    ensures c in Lower(s) <==> c in s
  {
    var r := Lower(s);
    if c in s {
      var i :| 0 <= i < |s| && s[i] == c;
      assert r[i] == c;
    }
    if c in r {
      var i :| 0 <= i < |r| && r[i] == c;
      assert s[i] == c;
    }
  }

  /** A string without upper-case letters is its own lowering. */
  lemma LowerKeepsLower(s: string)
    requires forall i :: 0 <= i < |s| ==> !('A' <= s[i] <= 'Z')
    ensures Lower(s) == s
  {
  }

  /** Lowering twice is lowering once. */
  lemma LowerIdempotent(s: string)
    ensures Lower(Lower(s)) == Lower(s)
  {
    var r := Lower(s);
    assert forall i :: 0 <= i < |r| ==> !('A' <= r[i] <= 'Z');
    LowerKeepsLower(r);
  }

  /** `needle` occurs in `hay` starting at index `i`. */
  ghost predicate OccursAt(needle: string, hay: string, i: int) {
    0 <= i && i + |needle| <= |hay| && hay[i..i + |needle|] == needle
  }

  /** The meaning of Python's `needle in hay` for strings. */
  ghost predicate Contains(hay: string, needle: string) {
    exists i :: OccursAt(needle, hay, i)
  }

  /** Python's `needle in hay`, computed as a left-to-right scan. */
  function IsInfix(needle: string, hay: string): bool {
    IsInfixFrom(needle, hay, 0)
  }

  /** The scan of IsInfix, trying each start position from `i` on. */
  function IsInfixFrom(needle: string, hay: string, i: nat): bool
    decreases |hay| - i
  {
    if i + |needle| > |hay| then false
    else if hay[i..i + |needle|] == needle then true
    else IsInfixFrom(needle, hay, i + 1)
  }

  lemma {:induction false} IsInfixFromCorrect(needle: string, hay: string, i: nat)
    decreases |hay| - i
    ensures IsInfixFrom(needle, hay, i) <==> exists j :: i <= j && OccursAt(needle, hay, j)
  {
    if i + |needle| > |hay| {
    } else if hay[i..i + |needle|] == needle {
      assert OccursAt(needle, hay, i);
    } else {
      IsInfixFromCorrect(needle, hay, i + 1);
      if exists j :: i <= j && OccursAt(needle, hay, j) {
        var j :| i <= j && OccursAt(needle, hay, j);
        assert j != i;
      }
    }
  }

  lemma IsInfixCorrect(needle: string, hay: string)
    ensures IsInfix(needle, hay) <==> Contains(hay, needle)
  {
    IsInfixFromCorrect(needle, hay, 0);
  }

  /** Every character of a contained string occurs in the containing one. */
  lemma ContainsChar(hay: string, needle: string, c: char)
    requires Contains(hay, needle) && c in needle
    ensures c in hay
  {
    var i :| OccursAt(needle, hay, i);
    var k :| 0 <= k < |needle| && needle[k] == c;
    assert hay[i..i + |needle|][k] == hay[i + k];
  }

  /** Python's `s.replace(c, rep)` for a one-character `c`. */
  function Replace(s: string, c: char, rep: string): string {
    if s == [] then [] else (if s[0] == c then rep else [s[0]]) + Replace(s[1..], c, rep)
  }

  lemma {:induction false} ReplaceAppend(s: string, t: string, c: char, rep: string)
    ensures Replace(s + t, c, rep) == Replace(s, c, rep) + Replace(t, c, rep)
  {
    if s == [] {
      assert s + t == t;
    } else {
      assert (s + t)[0] == s[0];
      assert (s + t)[1..] == s[1..] + t;
      ReplaceAppend(s[1..], t, c, rep);
    }
  }

  /** After the replacement, `c` survives only if `rep` reintroduces it. */
  lemma {:induction false} ReplaceRemoves(s: string, c: char, rep: string)
    requires c !in rep
    ensures c !in Replace(s, c, rep)
  {
    if s != [] {
      ReplaceRemoves(s[1..], c, rep);
    }
  }

  /** A character other than `c` that `rep` does not contain is present
      after the replacement exactly when it was present before. */
  lemma {:induction false} ReplaceKeeps(s: string, c: char, rep: string, d: char)
    requires d != c && d !in rep
    ensures d in Replace(s, c, rep) <==> d in s
  {
    if s != [] {
      ReplaceKeeps(s[1..], c, rep, d);
      assert s == [s[0]] + s[1..];
    }
  }

  /** Replacing an absent character changes nothing. */
  lemma {:induction false} ReplaceAbsent(s: string, c: char, rep: string)
    requires c !in s
    ensures Replace(s, c, rep) == s
  {
    if s != [] {
      ReplaceAbsent(s[1..], c, rep);
      assert s == [s[0]] + s[1..];
    }
  }

  /** Python's `sep.join(parts)`. */
  function Join(sep: string, parts: seq<string>): string {
    if parts == [] then []
    else if |parts| == 1 then parts[0]
    else parts[0] + sep + Join(sep, parts[1..])
  }
}
