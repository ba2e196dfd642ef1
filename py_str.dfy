/**
 * The few Python `str` operations the chat server relies on, written out so
 * that their edge cases are explicit: `strip()`, `split(' ', maxsplit)`,
 * `sep.join(...)`, `capitalize()`, `upper()`, `in` and `startswith`.
 * Case mapping is ASCII only; whitespace follows `str.isspace`.
 */
module PyStr {

  /** Characters for which Python's `str.isspace()` holds. */
  predicate IsSpace(c: char)
  {
    c == ' ' || ('\t' <= c <= '\r') || ('\U{1c}' <= c <= '\U{1f}')
    || c == '\U{85}' || c == '\U{a0}' || c == '\U{1680}'
    || ('\U{2000}' <= c <= '\U{200a}') || c == '\U{2028}' || c == '\U{2029}'
    || c == '\U{202f}' || c == '\U{205f}' || c == '\U{3000}'
  }

  /** `s.strip()` is empty, i.e. `s` is falsy once stripped. */
  predicate IsBlank(s: string)
  {
    forall i :: 0 <= i < |s| ==> IsSpace(s[i])
  }

  function TrimLeft(s: string): (r: string)
    ensures |r| <= |s|
    ensures r == s[|s| - |r|..]
    ensures r != [] ==> !IsSpace(r[0])
    ensures forall i :: 0 <= i < |s| - |r| ==> IsSpace(s[i])
  {
    if s != [] && IsSpace(s[0]) then TrimLeft(s[1..]) else s
  }

  function TrimRight(s: string): (r: string)
    ensures |r| <= |s|
    ensures r == s[..|r|]
    ensures r != [] ==> !IsSpace(r[|r| - 1])
    ensures forall i :: |r| <= i < |s| ==> IsSpace(s[i])
  {
    if s != [] && IsSpace(s[|s| - 1]) then TrimRight(s[..|s| - 1]) else s
  }

  /** `s.strip()`: leading and trailing whitespace removed. */
  function Strip(s: string): string
  {
    TrimRight(TrimLeft(s))
  }

  lemma StripEmptyIffBlank(s: string)
    ensures Strip(s) == [] <==> IsBlank(s)
  {
    var l := TrimLeft(s);
    if l != [] {
      assert !IsSpace(l[0]) && l[0] == s[|s| - |l|];
    }
  }

  /** A string with no whitespace at either end is its own strip. */
  lemma StripUntouched(s: string)
    requires s != [] ==> !IsSpace(s[0]) && !IsSpace(s[|s| - 1])
    ensures Strip(s) == s
  {
  }

  /** Stripping `s` followed by whitespace only gives back `s` when `s` has no outer whitespace. */
  lemma {:induction false} StripPadded(s: string, pad: string)
    requires s != [] ==> !IsSpace(s[0]) && !IsSpace(s[|s| - 1])
    requires IsBlank(pad)
    ensures Strip(s + pad) == s
  {
    if s == [] {
      StripEmptyIffBlank(pad);
      assert s + pad == pad;
    } else {
      assert TrimLeft(s + pad) == s + pad by {
        assert (s + pad)[0] == s[0];
      }
      TrimRightPadded(s, pad);
    }
  }

  lemma {:induction false} TrimRightPadded(s: string, pad: string)
    requires s != [] && !IsSpace(s[|s| - 1])
    requires IsBlank(pad)
    ensures TrimRight(s + pad) == s
    decreases |pad|
  {
    if pad == [] {
      assert s + pad == s;
    } else {
      var shorter := pad[..|pad| - 1];
      assert (s + pad)[..|s + pad| - 1] == s + shorter;
      TrimRightPadded(s, shorter);
    }
  }

  /** `s.ljust(width)`: `s` padded with spaces on the right up to `width` characters. */
  function Ljust(s: string, width: int): (r: string)
    ensures |r| == if |s| < width then width else |s|
    ensures r[..|s|] == s
    ensures IsBlank(r[|s|..])
  {
    if |s| < width then s + Spaces(width - |s|) else s
  }

  function Spaces(n: nat): (r: string)
    ensures |r| == n && IsBlank(r)
    ensures forall i :: 0 <= i < n ==> r[i] == ' '
  {
    if n == 0 then [] else Spaces(n - 1) + [' ']
  }

  // ---------------------------------------------------------------------------
  // Searching

  /** `sub in s`. */
  predicate Contains(s: string, sub: string)
    decreases |s|
  {
    StartsWith(s, sub) || (s != [] && Contains(s[1..], sub))
  }

  /** A text found in `s` is still found after anything is put in front of `s`. */
  lemma {:induction false} ContainsAfter(p: string, s: string, sub: string)
    requires Contains(s, sub)
    ensures Contains(p + s, sub)
    decreases |p|
  {
    if p == [] {
      assert p + s == s;
    } else {
      assert (p + s)[1..] == p[1..] + s;
      ContainsAfter(p[1..], s, sub);
    }
  }

  /** `s.startswith(prefix)`. */
  predicate StartsWith(s: string, prefix: string)
  {
    |prefix| <= |s| && s[..|prefix|] == prefix
  }

  // ---------------------------------------------------------------------------
  // split and join

  /**
   * `s.split(' ', maxsplit)`: splits at the first `maxsplit` spaces, at every
   * space when `maxsplit` is negative. Python never drops empty pieces when a
   * separator is given, so `"".split(' ', k) == ['']` and `"a  b".split(' ')`
   * holds an empty middle piece.
   */
  function Split(s: string, maxsplit: int): (r: seq<string>)
    ensures |r| >= 1
    decreases |s|
  {
    if s == [] then [[]]
    else if s[0] == ' ' && maxsplit != 0 then [[]] + Split(s[1..], maxsplit - 1)
    else
      var rest := Split(s[1..], maxsplit);
      [[s[0]] + rest[0]] + rest[1..]
  }

  /** `sep.join(xs)`. */
  function Join(sep: string, xs: seq<string>): string
  {
    if |xs| == 0 then []
    else if |xs| == 1 then xs[0]
    else xs[0] + sep + Join(sep, xs[1..])
  }

  /** Prefixing a character to the first piece prefixes it to the joined string. */
  lemma {:induction false} JoinPrefixFirst(c: char, xs: seq<string>)
    requires |xs| >= 1
    ensures Join(" ", [[c] + xs[0]] + xs[1..]) == [c] + Join(" ", xs)
  {
    var ys := [[c] + xs[0]] + xs[1..];
    if |xs| >= 2 {
      var tail := Join(" ", xs[1..]);
      calc {
        Join(" ", ys);
        ys[0] + " " + Join(" ", ys[1..]);
        { assert ys[1..] == xs[1..]; }
        ([c] + xs[0]) + " " + tail;
        [c] + (xs[0] + " " + tail);
        [c] + Join(" ", xs);
      }
    } else {
      assert ys == [[c] + xs[0]];
    }
  }

  /** Rejoining the pieces of a split with a single space gives back the original string. */
  lemma {:induction false} JoinSplit(s: string, maxsplit: int)
    ensures Join(" ", Split(s, maxsplit)) == s
    decreases |s|
  {
    if s == [] {
    } else if s[0] == ' ' && maxsplit != 0 {
      JoinSplit(s[1..], maxsplit - 1);
      var rest := Split(s[1..], maxsplit - 1);
      assert ([[]] + rest)[1..] == rest;
      assert s == [] + " " + s[1..];
    } else {
      JoinSplit(s[1..], maxsplit);
      JoinPrefixFirst(s[0], Split(s[1..], maxsplit));
      assert s == [s[0]] + s[1..];
    }
  }

  /**
   * A split with a non-negative bound yields at most `maxsplit + 1` pieces;
   * every piece but the last is free of spaces, and so is the last one when
   * the bound was not reached.
   */
  lemma {:induction false} SplitPieces(s: string, maxsplit: int)
    ensures maxsplit >= 0 ==> |Split(s, maxsplit)| <= maxsplit + 1
    ensures forall k :: 0 <= k < |Split(s, maxsplit)| - 1 ==> ' ' !in Split(s, maxsplit)[k]
    ensures maxsplit < 0 || |Split(s, maxsplit)| < maxsplit + 1 ==>
              ' ' !in Split(s, maxsplit)[|Split(s, maxsplit)| - 1]
    decreases |s|
  {
    var r := Split(s, maxsplit);
    if s == [] {
    } else if s[0] == ' ' && maxsplit != 0 {
      SplitPieces(s[1..], maxsplit - 1);
      var rest := Split(s[1..], maxsplit - 1);
      assert r == [[]] + rest;
      forall k | 0 <= k < |r| - 1 ensures ' ' !in r[k] {
        if k > 0 { assert r[k] == rest[k - 1]; }
      }
    } else {
      SplitPieces(s[1..], maxsplit);
      var rest := Split(s[1..], maxsplit);
      assert r[0] == [s[0]] + rest[0];
      forall k | 0 <= k < |r| - 1 ensures ' ' !in r[k] {
        if k > 0 { assert r[k] == rest[k]; }
      }
    }
  }

  /** Splitting after a space-free first word peels that word off. */
  lemma {:induction false} SplitCons(head: string, tail: string, n: int)
    requires ' ' !in head && n != 0
    ensures Split(head + " " + tail, n) == [head] + Split(tail, n - 1)
    decreases |head|
  {
    var s := head + " " + tail;
    if head == [] {
      assert s == " " + tail;
      assert s[1..] == tail;
    } else {
      assert s[0] == head[0] && s[1..] == head[1..] + " " + tail;
      SplitCons(head[1..], tail, n);
      assert [head[0]] + head[1..] == head;
    }
  }

  /**
   * Splitting a join of space-free pieces (the last one may hold spaces)
   * with bound `|xs| - 1` gives the pieces back.
   */
  lemma {:induction false} SplitJoin(xs: seq<string>)
    requires |xs| >= 1
    requires forall k :: 0 <= k < |xs| - 1 ==> ' ' !in xs[k]
    ensures Split(Join(" ", xs), |xs| - 1) == xs
    decreases |xs|
  {
    if |xs| == 1 {
      SplitUnbroken(xs[0]);
      assert xs == [xs[0]];
    } else {
      var head, rest := xs[0], xs[1..];
      var joined := Join(" ", rest);
      assert Join(" ", xs) == head + " " + joined;
      forall k | 0 <= k < |rest| - 1 ensures ' ' !in rest[k] {
        assert rest[k] == xs[k + 1];
      }
      SplitJoin(rest);
      SplitCons(head, joined, |rest|);
      assert xs == [head] + rest;
    }
  }

  /** With a zero bound nothing is split. */
  lemma {:induction false} SplitUnbroken(s: string)
    ensures Split(s, 0) == [s]
    decreases |s|
  {
    if s != [] {
      SplitUnbroken(s[1..]);
      assert [s[0]] + s[1..] == s;
    }
  }

  /** The first piece of a split, whatever its positive bound, is the text before the first space. */
  lemma {:induction false} SplitHead(s: string, m: int, n: int)
    requires m != 0 && n != 0
    ensures Split(s, m)[0] == Split(s, n)[0]
    decreases |s|
  {
    if s != [] && s[0] != ' ' {
      SplitHead(s[1..], m, n);
    }
  }

  // ---------------------------------------------------------------------------
  // Case mapping (ASCII letters only)

  function UpperChar(c: char): char
  {
    if 'a' <= c <= 'z' then (c as int - 32) as char else c
  }

  function LowerChar(c: char): char
  {
    if 'A' <= c <= 'Z' then (c as int + 32) as char else c
  }

  /** `s.upper()`. */
  function Upper(s: string): (r: string)
    ensures |r| == |s|
    ensures forall i :: 0 <= i < |s| ==> r[i] == UpperChar(s[i])
  {
    seq(|s|, i requires 0 <= i < |s| => UpperChar(s[i]))
  }

  /** `s.lower()`. */
  function Lower(s: string): (r: string)
    ensures |r| == |s|
    ensures forall i :: 0 <= i < |s| ==> r[i] == LowerChar(s[i])
  {
    seq(|s|, i requires 0 <= i < |s| => LowerChar(s[i]))
  }

  /** `s.capitalize()`: first character upper case, all the others lower case. */
  function Capitalize(s: string): string
  {
    if s == [] then [] else [UpperChar(s[0])] + Lower(s[1..])
  }

  /**
   * Capitalizing keeps the length, is empty exactly for the empty string and
   * is idempotent: a capitalized name is its own normal form.
   */
  lemma CapitalizeNormalForm(s: string)
    ensures |Capitalize(s)| == |s|
    ensures Capitalize(s) == [] <==> s == []
    ensures Capitalize(Capitalize(s)) == Capitalize(s)
  {
    if s != [] {
      var c := Capitalize(s);
      assert c[1..] == Lower(s[1..]);
      assert Capitalize(c) == c;
    }
  }

  /** Two spellings that differ only in the case of ASCII letters capitalize alike. */
  lemma CapitalizeIgnoresCase(s: string, t: string)
    requires |s| == |t|
    requires forall i :: 0 <= i < |s| ==> LowerChar(s[i]) == LowerChar(t[i])
    ensures Capitalize(s) == Capitalize(t)
  {
    if s != [] {
      assert UpperChar(s[0]) == UpperChar(t[0]);
      assert Lower(s[1..]) == Lower(t[1..]);
    }
  }
}
