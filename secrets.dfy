/** utils/secrets (and its older twin utils/password.go): the password
    strength policy and the random password generator. */
module Secrets {
  import opened Text
  import opened Wrappers
  import opened Errors

  /** The class a rune falls into, tried in the order of the Go switch:
      number, punctuation or symbol, upper case, lower case or space. */
  datatype RuneClass = Number | Special | Upper | Lower | Unclassified

  /** unicode.IsPunct || unicode.IsSymbol restricted to ASCII: every visible
      ASCII character that is neither a letter nor a digit. */
  predicate IsAsciiPunctOrSymbol(c: char)
  {
    ('!' <= c <= '/') || (':' <= c <= '@') || ('[' <= c <= '`') || ('{' <= c <= '~')
  }

  function Classify(c: char): RuneClass
  {
    if IsAsciiDigit(c) then Number
    else if IsAsciiPunctOrSymbol(c) then Special
    else if IsAsciiUpper(c) then Upper
    else if IsAsciiLower(c) || c == ' ' then Lower
    else Unclassified
  }

  /** The loop's state: the counter and the four flags. */
  datatype Tally = Tally(count: nat, number: bool, special: bool, upper: bool, lower: bool)

  const Start := Tally(0, false, false, false, false)

  /** One turn of the loop: a classified rune bumps the counter and sets the
      flag of its class; an unclassified one changes nothing. */
  function Step(t: Tally, c: char): Tally
  {
    match Classify(c)
    case Number => t.(count := t.count + 1, number := true)
    case Special => t.(count := t.count + 1, special := true)
    case Upper => t.(count := t.count + 1, upper := true)
    case Lower => t.(count := t.count + 1, lower := true)
    case Unclassified => t
  }

  /** The state after the loop has seen all of `s`. */
  function Scan(s: string): Tally
  {
    if s == [] then Start else Step(Scan(s[..|s| - 1]), s[|s| - 1])
  }

  /** The verdict of VerifyPassword: more than 8 counted runes and every flag set. */
  predicate Accepts(t: Tally)
  {
    t.count > 8 && t.number && t.upper && t.lower && t.special
  }

  // The policy stated without the loop, as a reference.

  function ClassifiedCount(s: string): nat
  {
    if s == [] then 0 else (if Classify(s[0]) == Unclassified then 0 else 1) + ClassifiedCount(s[1..])
  }

  predicate Has(s: string, k: RuneClass)
  {
    exists i :: 0 <= i < |s| && Classify(s[i]) == k
  }

  /** A password passes when more than 8 of its runes are classified and it
      has a rune of each of the four classes. */
  predicate PolicyHolds(s: string)
  {
    ClassifiedCount(s) > 8 && Has(s, Number) && Has(s, Special) && Has(s, Upper) && Has(s, Lower)
  }

  lemma {:induction false} ClassifiedCountAppend(s: string, c: char)
    ensures ClassifiedCount(s + [c]) == ClassifiedCount(s) + (if Classify(c) == Unclassified then 0 else 1)
  {
    if s != [] {
      assert (s + [c])[1..] == s[1..] + [c];
      ClassifiedCountAppend(s[1..], c);
    }
  }

  /** The loop computes the reference: its counter is the number of
      classified runes and each flag says whether a rune of that class occurs. */
  lemma {:induction false} ScanMeaning(s: string)
    ensures Scan(s).count == ClassifiedCount(s)
    ensures Scan(s).number == Has(s, Number) && Scan(s).special == Has(s, Special)
    ensures Scan(s).upper == Has(s, Upper) && Scan(s).lower == Has(s, Lower)
  {
    if s != [] {
      var init := s[..|s| - 1];
      var c := s[|s| - 1];
      assert s == init + [c];
      ScanMeaning(init);
      ClassifiedCountAppend(init, c);
      forall k: RuneClass ensures Has(s, k) == (Has(init, k) || Classify(c) == k) {
        if Has(s, k) {
          var i :| 0 <= i < |s| && Classify(s[i]) == k;
          if i < |s| - 1 { assert init[i] == s[i]; }
        }
        if Has(init, k) {
          var i :| 0 <= i < |init| && Classify(init[i]) == k;
          assert s[i] == init[i];
        }
      }
    }
  }

  lemma PassesIffPolicy(s: string)
    ensures Accepts(Scan(s)) <==> PolicyHolds(s)
  {
    ScanMeaning(s);
  }

  /** VerifyPassword: one pass over the runes keeping a counter and four
      flags, then the fixed error unless the policy holds. */
  method VerifyPassword(password: string) returns (err: Option<GoError>)
    ensures err == None <==> PolicyHolds(password)
    ensures err != None ==> err == Some(InvalidPassword)
  {
    var numOfLetters := 0;
    var number, upper, lower, special := false, false, false, false;
    var i := 0;
    while i < |password|
      invariant 0 <= i <= |password|
      invariant Scan(password[..i]) == Tally(numOfLetters, number, special, upper, lower)
    {
      var c := password[i];
      assert password[..i + 1][..i] == password[..i];
      if IsAsciiDigit(c) {
        number := true;
        numOfLetters := numOfLetters + 1;
      } else if IsAsciiPunctOrSymbol(c) {
        special := true;
        numOfLetters := numOfLetters + 1;
      } else if IsAsciiUpper(c) {
        upper := true;
        numOfLetters := numOfLetters + 1;
      } else if IsAsciiLower(c) || c == ' ' {
        lower := true;
        numOfLetters := numOfLetters + 1;
      }
      i := i + 1;
    }
    assert password[..i] == password;
    PassesIffPolicy(password);
    if numOfLetters > 8 && number && upper && lower && special {
      err := None;
    } else {
      err := Some(InvalidPassword);
    }
  }

  /** A rune feeds exactly one class: the counter grows by one for a
      classified rune, by nothing otherwise, and no flag but that of its
      class can change. */
  lemma StepTouchesOneClass(t: Tally, c: char)
    ensures Step(t, c).count == t.count + (if Classify(c) == Unclassified then 0 else 1)
    ensures Step(t, c).number != t.number ==> Classify(c) == Number
    ensures Step(t, c).special != t.special ==> Classify(c) == Special
    ensures Step(t, c).upper != t.upper ==> Classify(c) == Upper
    ensures Step(t, c).lower != t.lower ==> Classify(c) == Lower
  {
  }

  /** A digit is a number even though a symbol test comes next, and a space
      counts as lower case. */
  lemma ClassOrder()
    ensures forall c :: IsAsciiDigit(c) ==> Classify(c) == Number
    ensures Classify(' ') == Lower
  {
  }

  /** An unclassified rune changes neither the counter nor the verdict. */
  lemma UnclassifiedIgnored(s: string, c: char)
    requires Classify(c) == Unclassified
    ensures Scan(s + [c]) == Scan(s)
  {
    assert (s + [c])[..|s|] == s;
  }

  /** Appending runes to a passing password keeps it passing. */
  lemma {:induction false} PassingIsMonotonic(s: string, t: string)
    requires Accepts(Scan(s))
    ensures Accepts(Scan(s + t))
    decreases |t|
  {
    if t != [] {
      var init := t[..|t| - 1];
      assert s + t == (s + init) + [t[|t| - 1]];
      assert (s + t)[..|s + t| - 1] == s + init;
      assert Scan(s + t) == Step(Scan(s + init), t[|t| - 1]);
      PassingIsMonotonic(s, init);
    } else {
      assert s + t == s;
    }
  }

  /** Eight counted runes are not enough, although the message speaks of
      "at least 8". */
  lemma EightIsNotEnough(s: string)
    requires ClassifiedCount(s) <= 8
    ensures !PolicyHolds(s)
  {
  }

  /** "abc" fails: three runes, and no upper case, number or symbol. */
  lemma ShortExample()
    ensures !PolicyHolds("abc")
  {
    assert ClassifiedCount("c") == 1;
    assert ClassifiedCount("bc") == 2;
    assert ClassifiedCount("abc") == 3;
  }

  /** "Abcdefg1!" passes: nine counted runes covering all four classes. */
  lemma StrongExample()
    ensures PolicyHolds("Abcdefg1!")
  {
    assert ClassifiedCount("!") == 1;
    assert ClassifiedCount("1!") == 2;
    assert ClassifiedCount("g1!") == 3;
    assert ClassifiedCount("fg1!") == 4;
    assert ClassifiedCount("efg1!") == 5;
    assert ClassifiedCount("defg1!") == 6;
    assert ClassifiedCount("cdefg1!") == 7;
    assert ClassifiedCount("bcdefg1!") == 8;
    assert ClassifiedCount("Abcdefg1!") == 9;
    var p := "Abcdefg1!";
    assert Classify(p[0]) == Upper && Classify(p[1]) == Lower;
    assert Classify(p[7]) == Number && Classify(p[8]) == Special;
  }

  /** One rune fewer, "Abcdef1!", fails although it has all four classes. */
  lemma EightRuneExample()
    ensures !PolicyHolds("Abcdef1!")
  {
    assert ClassifiedCount("!") == 1;
    assert ClassifiedCount("1!") == 2;
    assert ClassifiedCount("f1!") == 3;
    assert ClassifiedCount("ef1!") == 4;
    assert ClassifiedCount("def1!") == 5;
    assert ClassifiedCount("cdef1!") == 6;
    assert ClassifiedCount("bcdef1!") == 7;
    assert ClassifiedCount("Abcdef1!") == 8;
    EightIsNotEnough("Abcdef1!");
  }

  /** Letters and digits alone can never pass: no punctuation or symbol. */
  lemma AlphanumericNeverPasses(s: string)
    requires forall i :: 0 <= i < |s| ==> IsAsciiAlnum(s[i])
    ensures !PolicyHolds(s)
  {
    forall i | 0 <= i < |s| ensures Classify(s[i]) != Special {
      assert IsAsciiAlnum(s[i]);
    }
  }

  // GetRandomPassword

  const Digits := "0123456789"
  const UpperCase := "ABCDEFGHIJKLMNOPQRSTUVWXYZ"
  const LowerCase := "abcdefghijklmnopqrstuvwxyz"
  const Letters := UpperCase + LowerCase
  const All := Letters + Digits
  const PasswordLength := 23

  lemma UpperCaseIsUpper()
    ensures |UpperCase| == 26 && forall i :: 0 <= i < |UpperCase| ==> IsAsciiUpper(UpperCase[i])
  {
  }

  lemma LowerCaseIsLower()
    ensures |LowerCase| == 26 && forall i :: 0 <= i < |LowerCase| ==> IsAsciiLower(LowerCase[i])
  {
  }

  lemma LettersAreLetters()
    ensures |Letters| == 52
    ensures forall i :: 0 <= i < |Letters| ==> IsAsciiLetter(Letters[i])
  {
    UpperCaseIsUpper();
    LowerCaseIsLower();
    forall i | 0 <= i < |Letters| ensures IsAsciiLetter(Letters[i]) {
      if i < 26 { assert Letters[i] == UpperCase[i]; }
      else { assert Letters[i] == LowerCase[i - 26]; }
    }
  }

  lemma AlphabetIsAlphanumeric()
    ensures |Digits| == 10 && |All| == 62
    ensures forall i :: 0 <= i < |All| ==> IsAsciiAlnum(All[i])
    ensures forall i :: 0 <= i < |Digits| ==> IsAsciiDigit(Digits[i])
  {
    LettersAreLetters();
    assert forall i :: 0 <= i < |Digits| ==> '0' <= Digits[i] <= '9';
    forall i | 0 <= i < |All| ensures IsAsciiAlnum(All[i]) {
      if i < 52 { assert All[i] == Letters[i]; }
      else { assert All[i] == Digits[i - 52]; }
    }
  }

  function SwapAt(s: seq<char>, i: nat, j: nat): (r: seq<char>)
    requires i < |s| && j < |s|
    ensures |r| == |s|
  {
    s[i := s[j]][j := s[i]]
  }

  /** The draws Fisher-Yates needs: the k-th partner index is at most the
      position n - 1 - k it is swapped with. */
  predicate SwapsFit(n: nat, js: seq<nat>)
  {
    |js| < n && forall k :: 0 <= k < |js| ==> js[k] <= n - 1 - k
  }

  /** rand.Shuffle's swaps applied to `s`: the k-th swap exchanges position
      n - 1 - k with the drawn index js[k]. */
  function Shuffled(s: seq<char>, js: seq<nat>): (r: seq<char>)
    requires SwapsFit(|s|, js)
    ensures |r| == |s|
  {
    if js == [] then s
    else SwapAt(Shuffled(s, js[..|js| - 1]), |s| - |js|, js[|js| - 1])
  }

  /** Shuffling only permutes: the characters, with their numbers of
      occurrences, are those of the input. */
  lemma {:induction false} ShuffledIsPermutation(s: seq<char>, js: seq<nat>)
    requires SwapsFit(|s|, js)
    ensures multiset(Shuffled(s, js)) == multiset(s)
  {
    if js != [] {
      var init := js[..|js| - 1];
      assert SwapsFit(|s|, init);
      ShuffledIsPermutation(s, init);
      var t := Shuffled(s, init);
      var i, j := |s| - |js|, js[|js| - 1];
      var u: seq<char> := t[i := t[j]];
      var w: seq<char> := u[j := t[i]];
      assert w == Shuffled(s, js);
      assert multiset(u) == multiset(t) - multiset{t[i]} + multiset{t[j]};
      assert multiset(w) == multiset(u) - multiset{u[j]} + multiset{t[i]};
    }
  }

  /** rand.Shuffle over a buffer, in place, with the draws supplied. */
  method Shuffle(buf: array<char>, js: seq<nat>)
    requires SwapsFit(buf.Length, js)
    modifies buf
    ensures buf[..] == Shuffled(old(buf[..]), js)
  {
    var k := 0;
    while k < |js|
      invariant 0 <= k <= |js|
      invariant buf[..] == Shuffled(old(buf[..]), js[..k])
    {
      assert js[..k + 1][..k] == js[..k];
      var i := buf.Length - 1 - k;
      var j := js[k];
      ghost var before := buf[..];
      assert Shuffled(old(buf[..]), js[..k + 1]) == SwapAt(before, i, j);
      buf[i], buf[j] := buf[j], buf[i];
      assert buf[..] == SwapAt(before, i, j);
      k := k + 1;
    }
    assert js[..k] == js;
  }

  /** The buffer before the shuffle: a digit, then 22 characters of All. */
  function Unshuffled(first: nat, draws: seq<nat>): (r: seq<char>)
    requires first < |Digits| && forall i :: 0 <= i < |draws| ==> draws[i] < |All|
  {
    [Digits[first]] + seq(|draws|, i requires 0 <= i < |draws| => All[draws[i]])
  }

  /** GetRandomPassword with its random draws as inputs: `first` picks the
      first digit, `draws` the other 22 characters, `swaps` the shuffle. */
  method GetRandomPassword(first: nat, draws: seq<nat>, swaps: seq<nat>) returns (p: string)
    requires first < |Digits|
    requires |draws| == PasswordLength - 1 && forall i :: 0 <= i < |draws| ==> draws[i] < |All|
    requires SwapsFit(PasswordLength, swaps) && |swaps| == PasswordLength - 1
    ensures |p| == PasswordLength
    ensures multiset(p) == multiset(Unshuffled(first, draws))
    ensures forall i :: 0 <= i < |p| ==> IsAsciiAlnum(p[i])
    ensures exists i :: 0 <= i < |p| && IsAsciiDigit(p[i])
    ensures !PolicyHolds(p)
  {
    var buf := new char[PasswordLength];
    buf[0] := Digits[first];
    for i := 1 to PasswordLength
      invariant buf[0] == Digits[first]
      invariant forall k :: 1 <= k < i ==> buf[k] == All[draws[k - 1]]
    {
      buf[i] := All[draws[i - 1]];
    }
    assert buf[..] == Unshuffled(first, draws);
    Shuffle(buf, swaps);
    p := buf[..];
    ShuffledIsPermutation(Unshuffled(first, draws), swaps);
    UnshuffledIsAlphanumeric(first, draws);
    AlphanumericPermuted(Unshuffled(first, draws), p);
    assert Digits[first] in multiset(Unshuffled(first, draws));
    assert Digits[first] in p;
    AlphanumericNeverPasses(p);
  }

  lemma UnshuffledIsAlphanumeric(first: nat, draws: seq<nat>)
    requires first < |Digits| && forall i :: 0 <= i < |draws| ==> draws[i] < |All|
    ensures forall i :: 0 <= i < |Unshuffled(first, draws)| ==> IsAsciiAlnum(Unshuffled(first, draws)[i])
    ensures IsAsciiDigit(Unshuffled(first, draws)[0])
  {
    AlphabetIsAlphanumeric();
  }

  lemma AlphanumericPermuted(u: seq<char>, p: seq<char>)
    requires multiset(p) == multiset(u)
    requires forall i :: 0 <= i < |u| ==> IsAsciiAlnum(u[i])
    ensures forall i :: 0 <= i < |p| ==> IsAsciiAlnum(p[i])
  {
    forall i | 0 <= i < |p| ensures IsAsciiAlnum(p[i]) {
      assert p[i] in multiset(p);
      assert p[i] in u;
    }
  }

  /** The generator's output has every character drawn from the alphabet, so
      whatever the draws, VerifyPassword rejects it. */
  lemma GeneratedPasswordsFailThePolicy(first: nat, draws: seq<nat>, swaps: seq<nat>)
    requires first < |Digits|
    requires |draws| == PasswordLength - 1 && forall i :: 0 <= i < |draws| ==> draws[i] < |All|
    requires SwapsFit(PasswordLength, swaps)
    ensures !PolicyHolds(Shuffled(Unshuffled(first, draws), swaps))
  {
    var u := Unshuffled(first, draws);
    ShuffledIsPermutation(u, swaps);
    UnshuffledIsAlphanumeric(first, draws);
    AlphanumericPermuted(u, Shuffled(u, swaps));
    AlphanumericNeverPasses(Shuffled(u, swaps));
  }
}
