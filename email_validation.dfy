/**
 * The contact form's email check, `/^[^\s@]+@[^\s@]+\.[^\s@]+$/.test(email)`
 * (src/App.jsx:580-581), and its characterisation in plain terms.
 */
module EmailValidation {
  import opened Strings

  /** The characters JavaScript's `\s` matches: WhiteSpace and LineTerminator of ECMA-262. */
  predicate IsRegexSpace(c: char) {
    var n := c as int;
    n == 0x09 || n == 0x0A || n == 0x0B || n == 0x0C || n == 0x0D || n == 0x20 ||
    n == 0xA0 || n == 0x1680 || (0x2000 <= n <= 0x200A) || n == 0x2028 || n == 0x2029 ||
    n == 0x202F || n == 0x205F || n == 0x3000 || n == 0xFEFF
  }

  /** The class `[^\s@]`. */
  predicate IsAddressChar(c: char) {
    !IsRegexSpace(c) && c != '@'
  }

  /** `[^\s@]+`: a non-empty run of the class. */
  predicate IsAddressRun(t: string) {
    |t| > 0 && forall k :: 0 <= k < |t| ==> IsAddressChar(t[k])
  }

  /**
   * The whole string matches `^[^\s@]+@[^\s@]+\.[^\s@]+$`: the literal "@" at `at` and the
   * literal "." at `dot` cut it into three runs of the class.
   */
  predicate EmailRegexTest(s: string) {
    exists at, dot | 0 <= at < dot < |s| ::
      s[at] == '@' && s[dot] == '.' &&
      IsAddressRun(s[..at]) && IsAddressRun(s[at + 1..dot]) && IsAddressRun(s[dot + 1..])
  }

  /** A domain with a "." that has text before and after it. */
  predicate HasInnerDot(d: string) {
    exists k :: 0 < k < |d| - 1 && d[k] == '.'
  }

  /** No whitespace, exactly one "@", a non-empty part before it and a dotted domain after it. */
  predicate IsWellFormedAddress(s: string) {
    && (forall k :: 0 <= k < |s| ==> !IsRegexSpace(s[k]))
    && CountOf(s, '@') == 1
    && 0 < IndexOf(s, '@')
    && HasInnerDot(s[IndexOf(s, '@') + 1..])
  }

  /** The regex accepts exactly the well-formed addresses. */
  lemma EmailRegexCharacterised(s: string)
    ensures EmailRegexTest(s) <==> IsWellFormedAddress(s)
  {
    if EmailRegexTest(s) {
      RegexImpliesWellFormed(s);
    }
    if IsWellFormedAddress(s) {
      WellFormedImpliesRegex(s);
    }
  }

  lemma RegexImpliesWellFormed(s: string)
    requires EmailRegexTest(s)
    ensures IsWellFormedAddress(s)
  {
    var at, dot :| 0 <= at < dot < |s| && s[at] == '@' && s[dot] == '.' &&
      IsAddressRun(s[..at]) && IsAddressRun(s[at + 1..dot]) && IsAddressRun(s[dot + 1..]);
    forall k | 0 <= k < |s| && k != at
      ensures IsAddressChar(s[k])
    {
      if k < at {
        assert s[..at][k] == s[k];
      } else if k < dot {
        assert s[at + 1..dot][k - at - 1] == s[k];
      } else if k > dot {
        assert s[dot + 1..][k - dot - 1] == s[k];
      }
    }
    assert IndexOf(s, '@') == at;
    var tail := s[at + 1..];
    assert '@' !in tail by {
      forall k | 0 <= k < |tail| ensures tail[k] != '@' {
        assert tail[k] == s[at + 1 + k];
      }
    }
    CountOneIff(s, '@');
    var d := s[at + 1..];
    assert d[dot - at - 1] == '.';
  }

  lemma WellFormedImpliesRegex(s: string)
    requires IsWellFormedAddress(s)
    ensures EmailRegexTest(s)
  {
    CountOneIff(s, '@');
    var at := IndexOf(s, '@');
    var d := s[at + 1..];
    var k :| 0 < k < |d| - 1 && d[k] == '.';
    var dot := at + 1 + k;
    assert s[dot] == '.';
    forall j | 0 <= j < |s| && j != at
      ensures IsAddressChar(s[j])
    {
      if j > at {
        assert d[j - at - 1] == s[j];
      }
    }
    assert IsAddressRun(s[..at]);
    var domainHead, domainTail := s[at + 1..dot], s[dot + 1..];
    assert IsAddressRun(domainHead) by {
      forall j | 0 <= j < |domainHead| ensures IsAddressChar(domainHead[j]) {
        assert domainHead[j] == s[at + 1 + j];
      }
    }
    assert IsAddressRun(domainTail) by {
      forall j | 0 <= j < |domainTail| ensures IsAddressChar(domainTail[j]) {
        assert domainTail[j] == s[dot + 1 + j];
      }
    }
  }

  /** An address the regex accepts has no line break, so it stays on one line of the message body. */
  lemma AcceptedEmailIsOneLine(s: string)
    requires EmailRegexTest(s)
    ensures '\n' !in s
  {
    RegexImpliesWellFormed(s);
  }
}
