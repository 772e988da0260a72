/** The .NET string primitives the credential decision relies on:
    whitespace classification, `string.IsNullOrWhiteSpace`, lower-casing
    and `IndexOf` of a single character. */
module Text {
  import opened Wrappers

  /** The backslash that separates a domain from a user in `DOMAIN\user`. */
  const DomainSeparator: char := '\\'

  /** .NET's `char.IsWhiteSpace`: the characters U+0009 to U+000D and U+0085,
      and every character of the Unicode categories Zs (space separator),
      Zl (line separator) and Zp (paragraph separator). */
  predicate IsWhiteSpace(c: char)
    // below U+0080 exactly the space and the controls tab to carriage return
    ensures c < '\U{80}' ==> (IsWhiteSpace(c) <==> c == ' ' || '\t' <= c <= '\r')
    // no whitespace character is a domain separator or an ASCII letter
    ensures IsWhiteSpace(c) ==> c != DomainSeparator && !('A' <= c <= 'Z') && !('a' <= c <= 'z')
  {
    || c == ' '
    || ('\t' <= c <= '\r')
    || c == '\U{85}'
    || c == '\U{A0}'
    || c == '\U{1680}'
    || ('\U{2000}' <= c <= '\U{200A}')
    || c == '\U{2028}'
    || c == '\U{2029}'
    || c == '\U{202F}'
    || c == '\U{205F}'
    || c == '\U{3000}'
  }

  /** `string.IsNullOrWhiteSpace` on a non-null string: a left-to-right scan
      that stops at the first character that is not whitespace. The result
      holds exactly when the string is empty or all of it is whitespace. */
  function IsBlank(s: string): (b: bool)
    ensures b <==> forall i :: 0 <= i < |s| ==> IsWhiteSpace(s[i])
  {
    |s| == 0 || (IsWhiteSpace(s[0]) && IsBlank(s[1..]))
  }

  /** `string.IsNullOrWhiteSpace` on a possibly null string. */
  predicate IsNullOrWhiteSpace(s: Nullable<string>)
    ensures IsNullOrWhiteSpace(s) <==>
      s.Null? || forall i :: 0 <= i < |s.value| ==> IsWhiteSpace(s.value[i])
  {
    s.Null? || IsBlank(s.value)
  }

  /** A string with a non-blank part is not blank. */
  lemma {:induction false} BlankConcat(a: string, b: string)
    ensures IsBlank(a + b) <==> IsBlank(a) && IsBlank(b)
  {
    var ab := a + b;
    if IsBlank(a) && IsBlank(b) {
      forall i | 0 <= i < |ab| ensures IsWhiteSpace(ab[i]) {
        if i < |a| {
          assert ab[i] == a[i];
        } else {
          assert ab[i] == b[i - |a|];
        }
      }
    }
    if IsBlank(ab) {
      forall i | 0 <= i < |a| ensures IsWhiteSpace(a[i]) {
        assert a[i] == ab[i];
      }
      forall i | 0 <= i < |b| ensures IsWhiteSpace(b[i]) {
        assert b[i] == ab[|a| + i];
      }
    }
  }

  /** Lower-casing of one character, restricted to ASCII letters (the
      culture-sensitive table of .NET's `ToLower` is not modelled). */
  function LowerChar(c: char): char {
    if 'A' <= c <= 'Z' then (c as int - 'A' as int + 'a' as int) as char else c
  }

  /** `string.ToLower`: every character lower-cased in place. */
  function ToLower(s: string): (r: string)
    ensures |r| == |s|
    ensures forall i :: 0 <= i < |s| ==> r[i] == LowerChar(s[i])
  {
    if |s| == 0 then [] else [LowerChar(s[0])] + ToLower(s[1..])
  }

  /** Lower-casing a user name commutes with cutting it at a separator. */
  lemma LowerSplit(u: string, i: int)
    requires 0 <= i < |u| && u[i] == DomainSeparator
    ensures ToLower(u) == ToLower(u[..i]) + [DomainSeparator] + ToLower(u[i + 1..])
  {
    var a, b := ToLower(u[..i]), ToLower(u[i + 1..]);
    var rhs := a + [DomainSeparator] + b;
    assert |rhs| == |u|;
    forall k | 0 <= k < |u| ensures rhs[k] == LowerChar(u[k]) {
      if k < i {
        assert rhs[k] == a[k];
      } else if k > i {
        assert rhs[k] == b[k - i - 1];
      }
    }
  }

  /** Lower-casing neither creates nor removes a domain separator. */
  lemma ToLowerKeepsSeparator(s: string)
    ensures DomainSeparator in ToLower(s) <==> DomainSeparator in s
  {
    if DomainSeparator in s {
      var i :| 0 <= i < |s| && s[i] == DomainSeparator;
      assert ToLower(s)[i] == DomainSeparator;
    }
    if DomainSeparator in ToLower(s) {
      var i :| 0 <= i < |s| && ToLower(s)[i] == DomainSeparator;
      assert s[i] == DomainSeparator;
    }
  }

  /** `string.IndexOf(char)`: the position of the first occurrence of `c`
      in `s`, or -1 when `s` does not contain `c`. */
  function IndexOf(s: string, c: char): (r: int)
    ensures -1 <= r < |s|
    ensures r == -1 <==> c !in s
    ensures 0 <= r ==> s[r] == c && forall j :: 0 <= j < r ==> s[j] != c
  {
    if |s| == 0 then -1
    else if s[0] == c then 0
    else
      var k := IndexOf(s[1..], c);
      if k < 0 then -1 else k + 1
  }

  /** When `prefix` holds no `c`, the first `c` of `prefix + [c] + rest` is
      the one right after `prefix`, whatever `rest` contains. */
  lemma SplitAtFirst(prefix: string, c: char, rest: string)
    requires c !in prefix
    ensures IndexOf(prefix + [c] + rest, c) == |prefix|
  {
    var u := prefix + [c] + rest;
    assert u[|prefix|] == c;
  }
}
