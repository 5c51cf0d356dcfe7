/** The email pattern of the domain package, written as a recognizer:

      ^[a-zA-Z0-9.!#$%&'*+/=?^_`{|}~-]+@LABEL(\.LABEL)*$
      LABEL = [a-zA-Z0-9](?:[a-zA-Z0-9-]{0,61}[a-zA-Z0-9])?

    The recognizer splits at the first '@' and then at every '.', and is
    proved to accept exactly the language the pattern describes. */
module EmailPattern {
  import opened Text

  /** The characters allowed before the '@'. */
  predicate IsLocalChar(c: char)
  {
    IsAsciiAlnum(c) || c in ".!#$%&'*+/=?^_`{|}~-"
  }

  predicate IsLocalPart(s: string)
  {
    |s| >= 1 && forall i :: 0 <= i < |s| ==> IsLocalChar(s[i])
  }

  /** One domain label: 1 to 63 letters, digits and hyphens, starting and
      ending with a letter or digit. */
  predicate IsLabel(l: string)
  {
    && 1 <= |l| <= 63
    && IsAsciiAlnum(l[0]) && IsAsciiAlnum(l[|l| - 1])
    && forall i :: 0 <= i < |l| ==> IsAsciiAlnum(l[i]) || l[i] == '-'
  }

  /** The index of the first `c` in `s`, or -1. */
  function IndexOf(s: string, c: char): (i: int)
    ensures -1 <= i < |s|
    ensures i >= 0 ==> s[i] == c && c !in s[..i]
    ensures i == -1 ==> c !in s
  {
    if s == [] then -1
    else if s[0] == c then 0
    else
      var j := IndexOf(s[1..], c);
      if j == -1 then -1 else j + 1
  }

  /** The recognizer: a non-empty local part, the first '@', and a domain
      whose dot-separated pieces are all labels. */
  predicate MatchesEmailPattern(s: string)
  {
    var at := IndexOf(s, '@');
    && at >= 1
    && IsLocalPart(s[..at])
    && var labels := Split(s[at + 1..], '.');
       forall k :: 0 <= k < |labels| ==> IsLabel(labels[k])
  }

  /** The language of the pattern: local part, '@', and one or more labels
      joined by dots. */
  ghost predicate InPatternLanguage(s: string)
  {
    exists local: string, labels: seq<string> ::
      && IsLocalPart(local) && |labels| >= 1
      && (forall k :: 0 <= k < |labels| ==> IsLabel(labels[k]))
      && s == local + "@" + Join(labels, '.')
  }

  lemma LabelHasNoDotOrAt(l: string)
    requires IsLabel(l)
    ensures '.' !in l && '@' !in l
  {
    forall i | 0 <= i < |l| ensures l[i] != '.' && l[i] != '@' {
      assert IsAsciiAlnum(l[i]) || l[i] == '-';
    }
  }

  /** A position holding `c` with no `c` before it is the one IndexOf finds. */
  lemma {:induction false} IndexOfIs(s: string, c: char, p: int)
    requires 0 <= p < |s| && s[p] == c
    requires forall i :: 0 <= i < p ==> s[i] != c
    ensures IndexOf(s, c) == p
  {
    if p > 0 {
      assert s[0] != c;
      IndexOfIs(s[1..], c, p - 1);
    }
  }

  /** The recognizer accepts exactly the language of the pattern. */
  lemma RecognizerMatchesLanguage(s: string)
    ensures MatchesEmailPattern(s) <==> InPatternLanguage(s)
  {
    if MatchesEmailPattern(s) {
      var at := IndexOf(s, '@');
      var labels := Split(s[at + 1..], '.');
      JoinSplit(s[at + 1..], '.');
      assert s == s[..at] + "@" + Join(labels, '.');
    }
    if InPatternLanguage(s) {
      var local: string, labels: seq<string> :|
        && IsLocalPart(local) && |labels| >= 1
        && (forall k :: 0 <= k < |labels| ==> IsLabel(labels[k]))
        && s == local + "@" + Join(labels, '.');
      forall i | 0 <= i < |local| ensures s[i] != '@' {
        assert s[i] == local[i] && IsLocalChar(local[i]);
      }
      IndexOfIs(s, '@', |local|);
      assert s[|local| + 1..] == Join(labels, '.');
      assert s[..|local|] == local;
      forall k | 0 <= k < |labels| ensures '.' !in labels[k] {
        LabelHasNoDotOrAt(labels[k]);
      }
      SplitJoin(labels, '.');
    }
  }

  lemma {:induction false} SplitLower(s: string, sep: char)
    requires !IsAsciiLetter(sep)
    ensures |Split(ToLower(s), sep)| == |Split(s, sep)|
    ensures forall k :: 0 <= k < |Split(s, sep)| ==> Split(ToLower(s), sep)[k] == ToLower(Split(s, sep)[k])
  {
    if s != [] {
      var t := ToLower(s);
      assert t[1..] == ToLower(s[1..]);
      SplitLower(s[1..], sep);
      var rest, lowRest := Split(s[1..], sep), Split(t[1..], sep);
      if s[0] != sep {
        assert t[0] == LowerChar(s[0]) != sep;
        assert ToLower([s[0]] + rest[0]) == [t[0]] + lowRest[0];
        assert Split(t, sep) == [[t[0]] + lowRest[0]] + lowRest[1..];
        assert Split(s, sep) == [[s[0]] + rest[0]] + rest[1..];
        forall k | 1 <= k < |rest| ensures Split(t, sep)[k] == ToLower(Split(s, sep)[k]) {
          assert Split(t, sep)[k] == lowRest[k] && Split(s, sep)[k] == rest[k];
        }
      } else {
        assert t[0] == sep;
        assert Split(t, sep) == [""] + lowRest;
      }
    } else {
      assert ToLower(s) == [];
    }
  }

  /** Lower-casing a matching address keeps it matching; this is what makes
      ValidateEmail idempotent. */
  lemma LowerCasePreservesMatch(s: string)
    requires MatchesEmailPattern(s)
    ensures MatchesEmailPattern(ToLower(s))
  {
    var at := IndexOf(s, '@');
    var t := ToLower(s);
    assert t[..at] == ToLower(s[..at]);
    forall i | 0 <= i < at ensures t[i] != '@' {
      assert s[i] in s[..at];
    }
    IndexOfIs(t, '@', at);
    assert t[at + 1..] == ToLower(s[at + 1..]);
    SplitLower(s[at + 1..], '.');
  }
}
