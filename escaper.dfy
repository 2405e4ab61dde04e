/** The markdown escaper of the `escapemd` command: every character of the
    fixed set `mdchars` is preceded by a backslash, every other character is
    copied unchanged. The source writes it as `split('')`, a `map` over the
    characters and `join('')`; here it is a function by recursion over the
    string, shown equal to that pipeline by EscapeIsSplitMapJoin. */
module MarkdownEscape {

  /** `mdchars`, in the source's order. */
  const MdChars: seq<char> := ['*', '_', '~', '`', '|']

  /** The escape marker inserted before each markdown character. */
  const Backslash: char := '\\'

  /** `Array.prototype.indexOf`: the first index of `c` in `xs`, or -1. */
  function IndexOf(xs: seq<char>, c: char): (r: int)
    ensures -1 <= r < |xs|
    ensures r == -1 <==> c !in xs
    ensures r >= 0 ==> xs[r] == c && c !in xs[..r]
  {
    if xs == [] then -1
    else if xs[0] == c then 0
    else
      var k := IndexOf(xs[1..], c);
      if k == -1 then -1
      else assert xs[..k + 1] == [xs[0]] + xs[1..][..k]; k + 1
  }

  /** JavaScript's ToInt32: the integer taken modulo 2^32, read as two's complement. */
  function ToInt32(x: int): (r: int)
    ensures -0x8000_0000 <= r < 0x8000_0000
    ensures (r - x) % 0x1_0000_0000 == 0
  {
    var m := x % 0x1_0000_0000;
    if m < 0x8000_0000 then m else m - 0x1_0000_0000
  }

  /** JavaScript's bitwise not `~x` on a number. */
  function BitNot(x: int): (r: int)
    ensures -0x8000_0000 <= r < 0x8000_0000
    ensures -0x8000_0000 <= x < 0x8000_0000 ==> r == -x - 1
  {
    var v := ToInt32(x);
    assert -0x8000_0000 <= x < 0x8000_0000 ==> v == x;
    -v - 1
  }

  /** Membership in `mdchars`: the characters the escaper prefixes. */
  predicate IsMdChar(c: char) {
    c in MdChars
  }

  /** The source's test `~mdchars.indexOf(char)`, read as a JavaScript truth
      value (a number is truthy when it is not 0). */
  predicate IndexOfTest(c: char) {
    BitNot(IndexOf(MdChars, c)) != 0
  }

  /** The source's test is exactly membership in `mdchars`: `~(-1)` is 0, the
      only falsy case, and `~i` for an index `i` in 0..4 is -1..-5. */
  lemma IndexOfTestIsMember(c: char)
    ensures IndexOfTest(c) <==> IsMdChar(c)
    ensures IndexOfTest(c) <==> c == '*' || c == '_' || c == '~' || c == '`' || c == '|'
  {
  }

  /** The escape marker is not itself a markdown character. */
  lemma BackslashNotMd()
    ensures !IsMdChar(Backslash)
  {
  }

  /** The `map` callback: what one character becomes. */
  function EscapeChar(c: char): string {
    if IsMdChar(c) then [Backslash, c] else [c]
  }

  /** The callback is the source's, written with the source's own test. */
  lemma EscapeCharIsCallback(c: char)
    ensures EscapeChar(c) == if IndexOfTest(c) then [Backslash, c] else [c]
  {
  }

  /** The escaper, one character at a time. */
  function Escape(s: string): (r: string)
    ensures |r| >= |s|
  {
    if s == [] then [] else EscapeChar(s[0]) + Escape(s[1..])
  }

  /** `join('')`: the concatenation of the parts, in order. */
  function Join(parts: seq<string>): string {
    if parts == [] then [] else parts[0] + Join(parts[1..])
  }

  /** `s.split('').map(EscapeChar)`: one part per character. */
  function SplitMap(s: string): (parts: seq<string>)
    ensures |parts| == |s|
  {
    seq(|s|, i requires 0 <= i < |s| => EscapeChar(s[i]))
  }

  /** The recursive escaper computes exactly the source's split/map/join pipeline. */
  lemma {:induction false} EscapeIsSplitMapJoin(s: string)
    ensures Escape(s) == Join(SplitMap(s))
  {
    if s != [] {
      EscapeIsSplitMapJoin(s[1..]);
      assert SplitMap(s)[1..] == SplitMap(s[1..]);
    }
  }

  /** The number of characters of `s` that the escaper prefixes. */
  function CountMd(s: string): (n: nat)
    ensures n <= |s|
  {
    if s == [] then 0 else (if IsMdChar(s[0]) then 1 else 0) + CountMd(s[1..])
  }

  /** `s` holds no markdown character. */
  predicate NoMd(s: string) {
    forall i :: 0 <= i < |s| ==> !IsMdChar(s[i])
  }

  lemma {:induction false} CountMdZeroIff(s: string)
    ensures CountMd(s) == 0 <==> NoMd(s)
  {
    if s != [] {
      CountMdZeroIff(s[1..]);
      assert forall i :: 1 <= i < |s| ==> s[1..][i - 1] == s[i];
    }
  }

  lemma {:induction false} CountMdAppend(a: string, b: string)
    ensures CountMd(a + b) == CountMd(a) + CountMd(b)
  {
    if a == [] {
      assert a + b == b;
    } else {
      assert (a + b)[1..] == a[1..] + b;
      CountMdAppend(a[1..], b);
    }
  }

  /** The empty message escapes to the empty message, and only it does. */
  lemma EscapeEmpty(s: string)
    ensures Escape(s) == [] <==> s == []
  {
  }

  /** Escaping distributes over concatenation: each character is escaped on its own. */
  lemma {:induction false} EscapeAppend(a: string, b: string)
    ensures Escape(a + b) == Escape(a) + Escape(b)
  {
    if a == [] {
      assert a + b == b;
    } else {
      assert (a + b)[0] == a[0];
      assert (a + b)[1..] == a[1..] + b;
      EscapeAppend(a[1..], b);
    }
  }

  /** The output is the input plus one backslash per markdown character. */
  lemma {:induction false} EscapeLength(s: string)
    ensures |Escape(s)| == |s| + CountMd(s)
  {
    if s != [] {
      EscapeLength(s[1..]);
    }
  }

  /** Text without markdown characters is returned unchanged. */
  lemma {:induction false} EscapeIdentity(s: string)
    requires NoMd(s)
    ensures Escape(s) == s
  {
    if s != [] {
      assert NoMd(s[1..]) by {
        assert forall i :: 0 <= i < |s| - 1 ==> s[1..][i] == s[i + 1];
      }
      EscapeIdentity(s[1..]);
    }
  }

  /** A string is left unchanged exactly when it has no markdown character. */
  lemma {:induction false} EscapeFixedPointIff(s: string)
    ensures Escape(s) == s <==> NoMd(s)
  {
    if NoMd(s) {
      EscapeIdentity(s);
    } else {
      EscapeLength(s);
      CountMdZeroIff(s);
    }
  }

  /** Escaping, in order: the part of `s` before position `i` escapes to a
      prefix of the output, then `s[i]` becomes its one or two characters at
      output position `i + CountMd(s[..i])`, then the rest of `s` follows. */
  lemma EscapeAt(s: string, i: nat)
    requires i < |s|
    ensures Escape(s) == Escape(s[..i]) + EscapeChar(s[i]) + Escape(s[i + 1..])
    ensures var p := i + CountMd(s[..i]);
      if IsMdChar(s[i])
      then p + 1 < |Escape(s)| && Escape(s)[p] == Backslash && Escape(s)[p + 1] == s[i]
      else p < |Escape(s)| && Escape(s)[p] == s[i]
  {
    var x, c, y := s[..i], s[i], s[i + 1..];
    assert s == x + ([c] + y);
    EscapeAppend(x, [c] + y);
    EscapeCons(c, y);
    EscapeLength(x);
    var e := Escape(s);
    assert e == Escape(x) + (EscapeChar(c) + Escape(y));
    var p := i + CountMd(x);
    assert |Escape(x)| == p;
    assert e[p] == EscapeChar(c)[0];
    if IsMdChar(c) {
      assert e[p + 1] == EscapeChar(c)[1];
    }
  }

  /** Escaping a string that starts with `c`. */
  lemma EscapeCons(c: char, s: string)
    ensures Escape([c] + s) == EscapeChar(c) + Escape(s)
  {
  }

  /** Escaping neither adds nor removes markdown characters: the inserted
      backslash is not one of them. */
  lemma {:induction false} CountMdEscape(s: string)
    ensures CountMd(Escape(s)) == CountMd(s)
  {
    if s != [] {
      BackslashNotMd();
      CountMdEscape(s[1..]);
      CountMdAppend(EscapeChar(s[0]), Escape(s[1..]));
      assert EscapeChar(s[0])[1..] == if IsMdChar(s[0]) then [s[0]] else [];
    }
  }

  /** Escaping is not idempotent: escaping twice equals escaping once exactly
      when there was nothing to escape. */
  lemma {:induction false} EscapeTwiceIff(s: string)
    ensures Escape(Escape(s)) == Escape(s) <==> NoMd(s)
  {
    EscapeFixedPointIff(Escape(s));
    CountMdZeroIff(Escape(s));
    CountMdZeroIff(s);
    CountMdEscape(s);
  }

  /** Escaping `*` twice gives backslash, backslash, star. */
  lemma EscapeTwiceStar()
    ensures Escape("*") == "\\*"
    ensures Escape(Escape("*")) == "\\\\*"
    ensures Escape(Escape("*")) != Escape("*")
  {
  }

  /** What one character becomes, spelled out over the five markdown characters. */
  lemma EscapeCharCases(c: char)
    ensures EscapeChar(c) ==
      if c == '*' || c == '_' || c == '~' || c == '`' || c == '|' then [Backslash, c] else [c]
  {
  }

  /** A worked example: both stars of a bold marker are escaped. */
  lemma EscapeBoldExample()
    ensures Escape("*bold*") == "\\*bold\\*"
  {
  }

  /** Undoes the escaper: reading left to right, a backslash immediately
      followed by a markdown character is dropped; everything else is kept. */
  function Unescape(t: string): (s: string)
    ensures |s| <= |t|
  {
    if t == [] then []
    else if |t| >= 2 && t[0] == Backslash && IsMdChar(t[1]) then [t[1]] + Unescape(t[2..])
    else [t[0]] + Unescape(t[1..])
  }

  /** The strings the escaper can produce: every markdown character sits right
      after a backslash. */
  predicate WellEscaped(t: string) {
    forall j :: 0 <= j < |t| && IsMdChar(t[j]) ==> j > 0 && t[j - 1] == Backslash
  }

  /** Every output of the escaper is well escaped. */
  lemma {:induction false} EscapeWellEscaped(s: string)
    ensures WellEscaped(Escape(s))
  {
    if s != [] {
      EscapeWellEscaped(s[1..]);
      BackslashNotMd();
      var h, t := EscapeChar(s[0]), Escape(s[1..]);
      assert Escape(s) == h + t;
      forall j | 0 <= j < |h + t| && IsMdChar((h + t)[j])
        ensures j > 0 && (h + t)[j - 1] == Backslash
      {
        if j >= |h| {
          assert (h + t)[j] == t[j - |h|];
          assert j - |h| > 0 && t[j - |h| - 1] == Backslash;
        }
      }
    }
  }

  /** Unescaping inverts escaping. */
  lemma {:induction false} UnescapeEscape(s: string)
    ensures Unescape(Escape(s)) == s
  {
    if s != [] {
      UnescapeEscape(s[1..]);
      var t := Escape(s[1..]);
      assert Escape(s) == EscapeChar(s[0]) + t;
      if IsMdChar(s[0]) {
        assert (EscapeChar(s[0]) + t)[2..] == t;
      } else {
        // the next output character is never a markdown character, so a
        // backslash copied from the input is not taken for an escape marker
        EscapeWellEscaped(s[1..]);
        assert t != [] ==> !IsMdChar(t[0]);
        assert (EscapeChar(s[0]) + t)[1..] == t;
      }
    }
  }

  /** Escaping is injective: distinct messages give distinct escaped messages. */
  lemma EscapeInjective(a: string, b: string)
    requires Escape(a) == Escape(b)
    ensures a == b
  {
    UnescapeEscape(a);
    UnescapeEscape(b);
  }

  /** On a well-escaped string, escaping undoes unescaping; with
      EscapeWellEscaped this makes WellEscaped exactly the escaper's image. */
  lemma {:induction false} EscapeUnescape(t: string)
    requires WellEscaped(t)
    ensures Escape(Unescape(t)) == t
  {
    if t != [] {
      assert !IsMdChar(t[0]);
      if |t| >= 2 && t[0] == Backslash && IsMdChar(t[1]) {
        var r := t[2..];
        assert WellEscaped(r) by {
          forall j | 0 <= j < |r| && IsMdChar(r[j]) ensures j > 0 && r[j - 1] == Backslash {
            assert r[j] == t[j + 2];
          }
        }
        EscapeUnescape(r);
        EscapeAppend([t[1]], Unescape(r));
        assert t == [Backslash, t[1]] + r;
      } else {
        var r := t[1..];
        assert WellEscaped(r) by {
          forall j | 0 <= j < |r| && IsMdChar(r[j]) ensures j > 0 && r[j - 1] == Backslash {
            assert r[j] == t[j + 1];
          }
        }
        EscapeUnescape(r);
        EscapeAppend([t[0]], Unescape(r));
        assert t == [t[0]] + r;
      }
    }
  }
}
