/** The string handling of the boot-record check: ASCII decoding, Python's
    `str.strip()` and the filter that keeps upper-case letters and spaces. */
module AsciiText {
  import opened Bytes

  /** `bytes.decode("ascii")` succeeds exactly when every byte is below 0x80. */
  predicate IsAscii(bs: seq<Byte>) {
    forall i :: 0 <= i < |bs| ==> bs[i] < 0x80
  }

  function Decode(bs: seq<Byte>): (s: string)
    requires IsAscii(bs)
    ensures |s| == |bs|
    ensures forall i :: 0 <= i < |bs| ==> s[i] as int == bs[i]
  {
    seq(|bs|, i requires 0 <= i < |bs| => bs[i] as char)
  }

  /** The inverse of `Decode`, used to state round trips. */
  function Encode(s: string): (bs: seq<Byte>)
    requires forall i :: 0 <= i < |s| ==> s[i] as int < 0x80
    ensures IsAscii(bs)
    ensures |bs| == |s|
  {
    seq(|s|, i requires 0 <= i < |s| => s[i] as int)
  }

  lemma DecodeEncode(s: string)
    requires forall i :: 0 <= i < |s| ==> s[i] as int < 0x80
    ensures Decode(Encode(s)) == s
  {
  }

  /** The characters an ASCII `str.isspace()` is true of: tab, line feed,
      vertical tab, form feed, carriage return, the four information
      separators 0x1C-0x1F, and space. */
  predicate IsSpace(c: char) {
    (9 <= c as int <= 13) || (28 <= c as int <= 32)
  }

  /** The filter of eltorito.py:36. */
  predicate IsUpperOrSpace(c: char) {
    ('A' <= c <= 'Z') || c == ' '
  }

  /** `str.lstrip()`. */
  function StripLeading(s: string): string
    decreases |s|
  {
    if s != [] && IsSpace(s[0]) then StripLeading(s[1..]) else s
  }

  /** `str.rstrip()`. */
  function StripTrailing(s: string): string
    decreases |s|
  {
    if s != [] && IsSpace(s[|s| - 1]) then StripTrailing(s[..|s| - 1]) else s
  }

  /** `str.strip()`. */
  function Strip(s: string): string {
    StripTrailing(StripLeading(s))
  }

  /** The list comprehension of eltorito.py:36: keeps `A`-`Z` and space, in order. */
  function KeepUpperAndSpace(s: string): string {
    if s == [] then []
    else (if IsUpperOrSpace(s[0]) then [s[0]] else []) + KeepUpperAndSpace(s[1..])
  }

  /** `StripLeading` drops the longest all-whitespace prefix: what is left is
      a suffix, everything dropped is whitespace, and what is left does not
      start with whitespace. */
  lemma {:induction false} StripLeadingSpec(s: string)
    ensures var r := StripLeading(s);
      && |r| <= |s| && r == s[|s| - |r|..]
      && (forall i :: 0 <= i < |s| - |r| ==> IsSpace(s[i]))
      && (r != [] ==> !IsSpace(r[0]))
    decreases |s|
  {
    if s != [] && IsSpace(s[0]) {
      StripLeadingSpec(s[1..]);
      var r := StripLeading(s);
      assert r == StripLeading(s[1..]);
      forall i | 0 <= i < |s| - |r| ensures IsSpace(s[i]) {
        if i > 0 {
          assert s[i] == s[1..][i - 1];
        }
      }
    }
  }

  /** `StripTrailing` drops the longest all-whitespace suffix: what is left is
      a prefix, everything dropped is whitespace, and what is left does not
      end with whitespace. */
  lemma {:induction false} StripTrailingSpec(s: string)
    ensures var r := StripTrailing(s);
      && |r| <= |s| && r == s[..|r|]
      && (forall i :: |r| <= i < |s| ==> IsSpace(s[i]))
      && (r != [] ==> !IsSpace(r[|r| - 1]))
    decreases |s|
  {
    if s != [] && IsSpace(s[|s| - 1]) {
      var t := s[..|s| - 1];
      StripTrailingSpec(t);
      var r := StripTrailing(s);
      assert r == StripTrailing(t);
      assert r == t[..|r|] == s[..|r|];
      forall i | |r| <= i < |s| ensures IsSpace(s[i]) {
        if i < |s| - 1 {
          assert s[i] == t[i];
        }
      }
    }
  }

  /** The filter keeps only `A`-`Z` and spaces, never lengthens, and leaves a
      string made only of those unchanged. */
  lemma {:induction false} KeepSpec(s: string)
    ensures var r := KeepUpperAndSpace(s);
      && |r| <= |s|
      && (forall i :: 0 <= i < |r| ==> IsUpperOrSpace(r[i]))
      && ((forall i :: 0 <= i < |s| ==> IsUpperOrSpace(s[i])) ==> r == s)
  {
    if s != [] {
      KeepSpec(s[1..]);
      var head := if IsUpperOrSpace(s[0]) then [s[0]] else [];
      var r := KeepUpperAndSpace(s);
      assert r == head + KeepUpperAndSpace(s[1..]);
      if forall i :: 0 <= i < |s| ==> IsUpperOrSpace(s[i]) {
        assert forall i :: 0 <= i < |s[1..]| ==> IsUpperOrSpace(s[1..][i]);
        assert r == [s[0]] + s[1..] == s;
      }
    }
  }

  /** The filter commutes with concatenation. */
  lemma {:induction false} KeepConcat(a: string, b: string)
    ensures KeepUpperAndSpace(a + b) == KeepUpperAndSpace(a) + KeepUpperAndSpace(b)
  {
    if a != [] {
      assert (a + b)[1..] == a[1..] + b;
      KeepConcat(a[1..], b);
    } else {
      assert a + b == b;
    }
  }

  /** A string with no letter or space filters to the empty string. */
  lemma {:induction false} KeepNone(s: string)
    requires forall i :: 0 <= i < |s| ==> !IsUpperOrSpace(s[i])
    ensures KeepUpperAndSpace(s) == []
  {
    if s != [] {
      KeepNone(s[1..]);
    }
  }

  /** The specifier as eltorito.py:35-36 and 39 compare it: stripped,
      filtered to `A`-`Z` and space, and stripped again. */
  function NormalizeSpecifier(s: string): string {
    Strip(KeepUpperAndSpace(Strip(s)))
  }

  const ElToritoSpecifier: string := "EL TORITO SPECIFICATION"

  /** What the normalization leaves: no longer than its input, only `A`-`Z`
      and spaces, and, unless empty, starting and ending with a letter. */
  lemma NormalizeSpecifierSpec(s: string)
    ensures var r := NormalizeSpecifier(s);
      && |r| <= |s|
      && (forall i :: 0 <= i < |r| ==> IsUpperOrSpace(r[i]))
      && (r != [] ==> 'A' <= r[0] <= 'Z' && 'A' <= r[|r| - 1] <= 'Z')
  {
    StripLeadingSpec(s);
    StripTrailingSpec(StripLeading(s));
    var a := Strip(s);
    KeepSpec(a);
    var k := KeepUpperAndSpace(a);
    StripLeadingSpec(k);
    var l := StripLeading(k);
    StripTrailingSpec(l);
    var r := StripTrailing(l);
    assert r == NormalizeSpecifier(s);
    forall i | 0 <= i < |r| ensures IsUpperOrSpace(r[i]) {
      assert r[i] == l[i] == k[|k| - |l| + i];
    }
  }

  lemma StripNoop(t: string)
    requires t != [] && !IsSpace(t[0]) && !IsSpace(t[|t| - 1])
    ensures Strip(t) == t
  {
  }

  /** Stripping a name that starts and ends with a non-space, followed by
      padding, keeps the name and a prefix of the padding. */
  lemma StripPadded(t: string, pad: string)
    requires t != [] && !IsSpace(t[0]) && !IsSpace(t[|t| - 1])
    ensures |t| <= |Strip(t + pad)| <= |t| + |pad|
    ensures Strip(t + pad) == t + pad[..|Strip(t + pad)| - |t|]
  {
    var s := t + pad;
    assert s[0] == t[0];
    assert StripLeading(s) == s;
    StripTrailingSpec(s);
    var r := StripTrailing(s);
    assert s[|t| - 1] == t[|t| - 1];
    assert |r| >= |t|;
    assert r == s[..|r|];
    assert s[..|r|] == t + pad[..|r| - |t|];
  }

  /** Filtering a kept name followed by dropped padding gives the name. */
  lemma KeepPadded(t: string, p: string)
    requires forall i :: 0 <= i < |t| ==> IsUpperOrSpace(t[i])
    requires forall i :: 0 <= i < |p| ==> !IsUpperOrSpace(p[i])
    ensures KeepUpperAndSpace(t + p) == t
  {
    KeepConcat(t, p);
    KeepNone(p);
    KeepSpec(t);
    assert t + [] == t;
  }

  /** A name made of letters and spaces, starting and ending with a letter,
      followed by padding without letters or spaces, normalizes to the name. */
  lemma PaddedNameNormalizes(t: string, pad: string)
    requires t != [] && !IsSpace(t[0]) && !IsSpace(t[|t| - 1])
    requires forall i :: 0 <= i < |t| ==> IsUpperOrSpace(t[i])
    requires forall i :: 0 <= i < |pad| ==> !IsUpperOrSpace(pad[i])
    ensures NormalizeSpecifier(t + pad) == t
  {
    StripPadded(t, pad);
    var p := pad[..|Strip(t + pad)| - |t|];
    assert forall i :: 0 <= i < |p| ==> !IsUpperOrSpace(p[i]) by {
      forall i | 0 <= i < |p| ensures !IsUpperOrSpace(p[i]) {
        assert p[i] == pad[i];
      }
    }
    KeepPadded(t, p);
    StripNoop(t);
  }

  /** The specifier as El Torito discs carry it, the 23 characters followed by
      padding without letters or spaces (usually NUL bytes), passes the check. */
  lemma PaddedSpecifierNormalizes(pad: string)
    requires forall i :: 0 <= i < |pad| ==> !IsUpperOrSpace(pad[i])
    ensures NormalizeSpecifier(ElToritoSpecifier + pad) == ElToritoSpecifier
  {
    PaddedNameNormalizes(ElToritoSpecifier, pad);
  }
}
