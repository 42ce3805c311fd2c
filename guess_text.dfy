/**
 * The text handling of a turn: Python's `str.strip()`, `str.lower()`,
 * `str.startswith` and `str.replace(pat, "")`, the test that recognises a
 * final guess ("я <role>!") and the normalisation of the guessed role.
 */
module GuessText {

  /** Python's `str.isspace` for one character (the Unicode white-space code points). */
  predicate IsSpace(c: char) {
    var n := c as int;
    n == 0x20 || 0x09 <= n <= 0x0D || 0x1C <= n <= 0x1F || n == 0x85 || n == 0xA0
    || n == 0x1680 || 0x2000 <= n <= 0x200A || n == 0x2028 || n == 0x2029
    || n == 0x202F || n == 0x205F || n == 0x3000
  }

  /** Number of white-space characters at the front of `s`. */
  function LeadingSpaces(s: string): (n: nat)
    ensures n <= |s|
    ensures forall k :: 0 <= k < n ==> IsSpace(s[k])
    ensures n < |s| ==> !IsSpace(s[n])
  {
    if s != [] && IsSpace(s[0]) then 1 + LeadingSpaces(s[1..]) else 0
  }

  /** Number of white-space characters at the back of `s`. */
  function TrailingSpaces(s: string): (n: nat)
    ensures n <= |s|
    ensures forall k :: |s| - n <= k < |s| ==> IsSpace(s[k])
    ensures n < |s| ==> !IsSpace(s[|s| - 1 - n])
  {
    if s != [] && IsSpace(s[|s| - 1]) then 1 + TrailingSpaces(s[..|s| - 1]) else 0
  }

  /**
   * Python's `str.strip()` with no argument: the result is the slice of `s`
   * that starts at its first non-blank character, and everything outside that
   * slice is white space.
   */
  function Strip(s: string): (r: string)
    ensures r == [] || (!IsSpace(r[0]) && !IsSpace(r[|r| - 1]))
    ensures LeadingSpaces(s) + |r| <= |s|
    ensures r == s[LeadingSpaces(s)..LeadingSpaces(s) + |r|]
    ensures forall k :: 0 <= k < |s| && !(LeadingSpaces(s) <= k < LeadingSpaces(s) + |r|) ==> IsSpace(s[k])
  {
    var lead := LeadingSpaces(s);
    var t := s[lead..];
    var r := t[..|t| - TrailingSpaces(t)];
    assert r == s[lead..lead + |r|];
    assert forall k :: lead + |r| <= k < |s| ==> t[k - lead] == s[k];
    r
  }

  /** Every character kept by `strip()` comes from its argument. */
  lemma StripChars(s: string, c: char)
    requires c in Strip(s)
    ensures c in s
  {
    var r := Strip(s);
    var k :| 0 <= k < |r| && r[k] == c;
    assert s[LeadingSpaces(s) + k] == c;
  }

  /** Text that neither starts nor ends with white space is left alone by `strip()`. */
  lemma StripUnpadded(s: string)
    requires s == [] || (!IsSpace(s[0]) && !IsSpace(s[|s| - 1]))
    ensures Strip(s) == s
  {
  }

  /** `strip()` is idempotent. */
  lemma StripIdempotent(s: string)
    ensures Strip(Strip(s)) == Strip(s)
  {
    StripUnpadded(Strip(s));
  }

  /** Python's `str.lower` for the ASCII capitals and the Cyrillic capitals U+0400–U+042F; every other character is kept. */
  function LowerChar(c: char): char {
    var n := c as int;
    if 0x41 <= n <= 0x5A || 0x410 <= n <= 0x42F then (n + 0x20) as char
    else if 0x400 <= n <= 0x40F then (n + 0x50) as char
    else c
  }

  /** Python's `str.lower()`, character by character. */
  function Lower(s: string): (r: string)
    ensures |r| == |s|
    ensures forall k :: 0 <= k < |s| ==> r[k] == LowerChar(s[k])
  {
    seq(|s|, k requires 0 <= k < |s| => LowerChar(s[k]))
  }

  /** Lowering is idempotent: lowered text is its own lower case. */
  lemma LowerIdempotent(s: string)
    ensures Lower(Lower(s)) == Lower(s)
  {
  }

  /** Lowering leaves white space and '!' in place and makes no new white space or '!'. */
  lemma LowerCharKeeps(c: char)
    ensures IsSpace(LowerChar(c)) <==> IsSpace(c)
    ensures LowerChar(c) == '!' <==> c == '!'
    ensures LowerChar(c) == ' ' <==> c == ' '
    ensures LowerChar(c) == 'я' <==> c == 'я' || c == 'Я'
  {
  }

  /** Lowering works on each part of a concatenation separately. */
  lemma LowerAppend(a: string, b: string)
    ensures Lower(a + b) == Lower(a) + Lower(b)
  {
  }

  /** Python's `s.startswith(p)`. */
  predicate StartsWith(s: string, p: string) {
    |p| <= |s| && s[..|p|] == p
  }

  /** `pat` occurs nowhere in `s`. */
  predicate NoOccurrence(s: string, pat: string) {
    forall i :: 0 <= i <= |s| - |pat| ==> !StartsWith(s[i..], pat)
  }

  /**
   * Python's `s.replace(pat, "")`: scanning from the left, every occurrence of
   * `pat` that does not overlap one already removed is deleted.
   */
  function RemoveAll(s: string, pat: string): (r: string)
    requires |pat| > 0
    ensures |r| <= |s|
    ensures forall c :: c in r ==> c in s
    decreases |s|
  {
    if |s| < |pat| then s
    else if StartsWith(s, pat) then RemoveAll(s[|pat|..], pat)
    else [s[0]] + RemoveAll(s[1..], pat)
  }

  /** Removing a one-character pattern leaves none of that character behind. */
  lemma {:induction false} RemoveAllChar(s: string, c: char)
    ensures c !in RemoveAll(s, [c])
    decreases |s|
  {
    if |s| >= 1 {
      RemoveAllChar(s[1..], c);
    }
  }

  /**
   * A prefix in which no occurrence of `pat` starts is copied through
   * unchanged, and the scan then continues on the rest.
   */
  lemma {:induction false} RemoveAllCleanPrefix(a: string, b: string, pat: string)
    requires |pat| > 0
    requires forall i :: 0 <= i < |a| ==> !StartsWith((a + b)[i..], pat)
    ensures RemoveAll(a + b, pat) == a + RemoveAll(b, pat)
    decreases |a|
  {
    if a != [] {
      var s := a + b;
      if |s| < |pat| {
        RemoveAllShort(s, pat);
        RemoveAllShort(b, pat);
        assert RemoveAll(a + b, pat) == a + RemoveAll(b, pat);
      } else {
        assert s[0..] == s;
        assert RemoveAll(s, pat) == [s[0]] + RemoveAll(s[1..], pat);
        assert s[1..] == a[1..] + b;
        forall i | 0 <= i < |a[1..]| ensures !StartsWith((a[1..] + b)[i..], pat) {
          assert (a[1..] + b)[i..] == s[i + 1..];
        }
        RemoveAllCleanPrefix(a[1..], b, pat);
        assert s[0] == a[0];
        calc {
          RemoveAll(s, pat);
          [a[0]] + RemoveAll(a[1..] + b, pat);
          [a[0]] + (a[1..] + RemoveAll(b, pat));
          ([a[0]] + a[1..]) + RemoveAll(b, pat);
          { assert [a[0]] + a[1..] == a; }
          a + RemoveAll(b, pat);
        }
      }
    } else {
      assert a + b == b;
    }
  }

  /** Text shorter than the pattern is returned as it is. */
  lemma RemoveAllShort(s: string, pat: string)
    requires 0 < |pat| && |s| < |pat|
    ensures RemoveAll(s, pat) == s
  {
  }

  /**
   * The final-guess test on a stripped message: its lower case starts with
   * "я " and its last character is '!'.
   */
  predicate IsFinalGuess(question: string) {
    StartsWith(Lower(question), "я ") && question[|question| - 1] == '!'
  }

  /**
   * Character by character: a message is a final guess exactly when it is at
   * least three characters long, starts with 'я' or 'Я' and a blank, and ends
   * with '!'. The shortest final guess is "я !".
   */
  lemma FinalGuessShape(question: string)
    ensures IsFinalGuess(question)
      <==> |question| >= 3 && (question[0] == 'я' || question[0] == 'Я')
           && question[1] == ' ' && question[|question| - 1] == '!'
  {
    if |question| >= 2 {
      LowerCharKeeps(question[0]);
      LowerCharKeeps(question[1]);
      assert Lower(question)[..2] == [LowerChar(question[0]), LowerChar(question[1])];
    }
  }

  /**
   * The role named by a final guess: the message lowered, every "я " and every
   * '!' removed, then stripped.
   */
  function GuessedRole(guess: string): string {
    Strip(RemoveAll(RemoveAll(Lower(guess), "я "), "!"))
  }

  /** The guessed role is lower case, holds no '!' and has no white space at either end. */
  lemma GuessedRoleShape(guess: string)
    ensures '!' !in GuessedRole(guess)
    ensures Lower(GuessedRole(guess)) == GuessedRole(guess)
    ensures var r := GuessedRole(guess); r == [] || (!IsSpace(r[0]) && !IsSpace(r[|r| - 1]))
  {
    var lowered := Lower(guess);
    LowerIdempotent(guess);
    var noMarker := RemoveAll(lowered, "я ");
    var noBang := RemoveAll(noMarker, "!");
    GuessedRoleChars(lowered, noMarker, noBang, Strip(noBang));
  }

  /** What the normalisation keeps comes from lowered text, and is lower case and free of '!'. */
  lemma GuessedRoleChars(lowered: string, noMarker: string, noBang: string, r: string)
    requires lowered == Lower(lowered)
    requires noMarker == RemoveAll(lowered, "я ")
    requires noBang == RemoveAll(noMarker, "!")
    requires r == Strip(noBang)
    ensures '!' !in r
    ensures Lower(r) == r
  {
    RemoveAllChar(noMarker, '!');
    forall k | 0 <= k < |r| ensures LowerChar(r[k]) == r[k] && r[k] != '!' {
      assert r[k] in r;
      StripChars(noBang, r[k]);
      var j :| 0 <= j < |lowered| && lowered[j] == r[k];
      assert LowerChar(lowered[j]) == lowered[j];
    }
  }

  /** The guess succeeds when the guessed text and the role agree ignoring case. */
  predicate GuessMatches(guessed: string, role: string) {
    Lower(guessed) == Lower(role)
  }

  /**
   * Guessing "я <name>!" (with either case of 'я') recognises a final guess,
   * and it wins exactly when <name> equals the role ignoring case, provided
   * the name carries no '!', no "я " once lowered, and no surrounding white
   * space (which normalisation would strip away).
   */
  lemma CanonicalGuess(marker: char, name: string, role: string)
    requires marker == 'я' || marker == 'Я'
    requires '!' !in name
    requires NoOccurrence(Lower(name), "я ")
    requires name == [] || (!IsSpace(name[0]) && !IsSpace(name[|name| - 1]))
    ensures IsFinalGuess([marker, ' '] + name + "!")
    ensures GuessedRole([marker, ' '] + name + "!") == Lower(name)
    ensures GuessMatches(GuessedRole([marker, ' '] + name + "!"), role) <==> Lower(name) == Lower(role)
  {
    var guess := [marker, ' '] + name + "!";
    var low := Lower(name);
    FinalGuessShape(guess);
    LowerGuess(marker, name);
    MarkerRemoved(low);
    BangRemoved(name);
    UnpaddedLower(name);
    assert GuessedRole(guess) == low;
    LowerIdempotent(name);
  }

  /** Deleting every '!' from the lowered name and its closing '!' leaves the lowered name. */
  lemma BangRemoved(name: string)
    requires '!' !in name
    ensures RemoveAll(Lower(name) + "!", "!") == Lower(name)
  {
    var low := Lower(name);
    forall k | 0 <= k < |low| ensures low[k] != '!' {
      LowerCharKeeps(name[k]);
      assert name[k] in name;
    }
    RemoveAllAbsentPrefix(low, "!", "!");
    assert RemoveAll("!", "!") == [];
  }

  /** The guess "я <name>!", lowered, is "я " followed by the lowered name and '!'. */
  lemma LowerGuess(marker: char, name: string)
    requires marker == 'я' || marker == 'Я'
    ensures Lower([marker, ' '] + name + "!") == "я " + (Lower(name) + "!")
  {
    LowerAppend([marker, ' '] + name, "!");
    LowerAppend([marker, ' '], name);
    assert Lower([marker, ' ']) == "я ";
    assert Lower("!") == "!";
  }

  /** Deleting every "я " from the lowered guess removes only the marker when the name holds none. */
  lemma MarkerRemoved(low: string)
    requires NoOccurrence(low, "я ")
    ensures RemoveAll("я " + (low + "!"), "я ") == low + "!"
  {
    assert StartsWith("я " + (low + "!"), "я ");
    assert ("я " + (low + "!"))[2..] == low + "!";
    forall i | 0 <= i < |low + "!"| ensures !StartsWith((low + "!" + [])[i..], "я ") {
      assert low + "!" + [] == low + "!";
      if i + 2 <= |low| {
        assert (low + "!")[i..][..2] == low[i..][..2];
      } else if i + 1 == |low| {
        assert (low + "!")[i + 1] == '!';
      }
    }
    RemoveAllCleanPrefix(low + "!", [], "я ");
    assert low + "!" + [] == low + "!";
  }

  /** A name without surrounding white space keeps none once lowered, so `strip()` leaves it alone. */
  lemma UnpaddedLower(name: string)
    requires name == [] || (!IsSpace(name[0]) && !IsSpace(name[|name| - 1]))
    ensures Strip(Lower(name)) == Lower(name)
  {
    if name != [] {
      LowerCharKeeps(name[0]);
      LowerCharKeeps(name[|name| - 1]);
    }
    StripUnpadded(Lower(name));
  }

  /**
   * As written, `replace("я ", "")` deletes every "я " of the lowered guess,
   * not only the leading marker, so a role whose name holds "я " (a first
   * name ending in 'я' followed by a blank) can never be guessed: the
   * canonical guess for "Мария Кюри" normalises to "марикюри".
   */
  lemma InnerMarkerLosesGuess()
    ensures IsFinalGuess("я Мария Кюри!")
    ensures GuessedRole("я Мария Кюри!") == "марикюри"
    ensures !GuessMatches(GuessedRole("я Мария Кюри!"), "Мария Кюри")
  {
    FinalGuessShape("я Мария Кюри!");
    ExampleLowered();
    ExampleMarkersRemoved();
    ExampleBangRemoved();
    StripUnpadded("марикюри");
    assert |Lower("марикюри")| != |Lower("Мария Кюри")|;
  }

  /** The example guess, lowered. */
  lemma ExampleLowered()
    ensures Lower("я Мария Кюри!") == "я мария кюри!"
  {
  }

  /** A prefix without the pattern's first character is copied through unchanged. */
  lemma RemoveAllAbsentPrefix(a: string, b: string, pat: string)
    requires |pat| > 0 && pat[0] !in a
    ensures RemoveAll(a + b, pat) == a + RemoveAll(b, pat)
  {
    forall i | 0 <= i < |a| ensures !StartsWith((a + b)[i..], pat) {
      assert (a + b)[i..][0] == a[i];
    }
    RemoveAllCleanPrefix(a, b, pat);
  }

  /** Both "я " of the lowered example guess are deleted: the marker and the end of "мария". */
  lemma ExampleMarkersRemoved()
    ensures RemoveAll("я мария кюри!", "я ") == "марикюри!"
  {
    var rest := "мария кюри!";
    assert "я мария кюри!" == "я " + rest;
    assert StartsWith("я " + rest, "я ") && ("я " + rest)[2..] == rest;
    ExampleInnerMarker();
  }

  /** The "я " that ends "мария" is deleted, and "кюри!" holds none. */
  lemma ExampleInnerMarker()
    ensures RemoveAll("мария кюри!", "я ") == "марикюри!"
  {
    var head, tail := "мари", "я кюри!";
    RemoveAllAbsentPrefix(head, tail, "я ");
    assert head + tail == "мария кюри!";
    ExampleTail();
    assert head + "кюри!" == "марикюри!";
  }

  /** The "я " before "кюри!" is deleted, and the rest is kept. */
  lemma ExampleTail()
    ensures RemoveAll("я кюри!", "я ") == "кюри!"
  {
    var last := "кюри!";
    assert "я кюри!" == "я " + last;
    assert StartsWith("я " + last, "я ") && ("я " + last)[2..] == last;
    RemoveAllAbsentPrefix(last, [], "я ");
    assert last + [] == last;
  }

  /** The closing '!' of the example is deleted. */
  lemma ExampleBangRemoved()
    ensures RemoveAll("марикюри!", "!") == "марикюри"
  {
    RemoveAllAbsentPrefix("марикюри", "!", "!");
    assert RemoveAll("!", "!") == [];
    assert "марикюри!" == "марикюри" + "!";
  }

  /**
   * The normalisation the final guess evidently intends: lower the guess,
   * drop the leading "я " marker and the closing '!' once each, and strip.
   */
  function IntendedGuessedRole(guess: string): string {
    var low := Lower(guess);
    var body := if StartsWith(low, "я ") then low[2..] else low;
    Strip(if body != [] && body[|body| - 1] == '!' then body[..|body| - 1] else body)
  }

  /**
   * With the intended normalisation, "я <name>!" names exactly <name>,
   * lowered and stripped, whatever the name holds; so a name without
   * surrounding white space wins exactly when it equals the role ignoring case.
   */
  lemma IntendedCanonicalGuess(marker: char, name: string, role: string)
    requires marker == 'я' || marker == 'Я'
    ensures IsFinalGuess([marker, ' '] + name + "!")
    ensures IntendedGuessedRole([marker, ' '] + name + "!") == Strip(Lower(name))
    ensures name == [] || (!IsSpace(name[0]) && !IsSpace(name[|name| - 1])) ==>
      (GuessMatches(IntendedGuessedRole([marker, ' '] + name + "!"), role) <==> Lower(name) == Lower(role))
  {
    FinalGuessShape([marker, ' '] + name + "!");
    LowerGuess(marker, name);
    IntendedDropsMarkers([marker, ' '] + name + "!", Lower(name));
    if name == [] || (!IsSpace(name[0]) && !IsSpace(name[|name| - 1])) {
      UnpaddedLower(name);
      LowerIdempotent(name);
    }
  }

  /** A guess that lowers to "я " + `low` + "!" names `low`, stripped, under the intended normalisation. */
  lemma IntendedDropsMarkers(guess: string, low: string)
    requires Lower(guess) == "я " + (low + "!")
    ensures IntendedGuessedRole(guess) == Strip(low)
  {
    assert StartsWith("я " + (low + "!"), "я ");
    assert ("я " + (low + "!"))[2..] == low + "!";
    assert (low + "!")[..|low|] == low;
  }

  /** On names the as-written normalisation handles, the intended one agrees with it. */
  lemma IntendedAgreesOnPlainNames(marker: char, name: string)
    requires marker == 'я' || marker == 'Я'
    requires '!' !in name
    requires NoOccurrence(Lower(name), "я ")
    requires name == [] || (!IsSpace(name[0]) && !IsSpace(name[|name| - 1]))
    ensures IntendedGuessedRole([marker, ' '] + name + "!") == GuessedRole([marker, ' '] + name + "!")
  {
    CanonicalGuess(marker, name, name);
    IntendedCanonicalGuess(marker, name, name);
    UnpaddedLower(name);
  }
}
