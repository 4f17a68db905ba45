/**
  The explicit email pattern of the employee form,
  `^[a-zA-Z0-9._%+-]+@[a-zA-Z0-9.-]+\.[a-zA-Z]{2,}$`, as a language and as
  a deterministic automaton that reads the string once, left to right. The
  two are proved to accept the same strings.
 */
module EmailPattern {

  import opened JsStrings

  /** `[a-zA-Z0-9._%+-]`: a character of the part before the `@`. */
  predicate IsLocalChar(c: char)
  {
    IsAsciiLetter(c) || IsAsciiDigit(c) || c == '.' || c == '_' || c == '%' || c == '+' || c == '-'
  }

  /** `[a-zA-Z0-9.-]`: a character of the domain before the final dot. */
  predicate IsDomainChar(c: char)
  {
    IsAsciiLetter(c) || IsAsciiDigit(c) || c == '.' || c == '-'
  }

  predicate AllLocal(s: string) { forall i | 0 <= i < |s| :: IsLocalChar(s[i]) }

  predicate AllDomain(s: string) { forall i | 0 <= i < |s| :: IsDomainChar(s[i]) }

  predicate AllLetters(s: string) { forall i | 0 <= i < |s| :: IsAsciiLetter(s[i]) }

  /**
    `s` splits as local `@` domain `.` suffix at the given indices of the
    `@` and of the dot, each part matching its character class and
    repetition.
   */
  ghost predicate EmailSplit(s: string, at: int, dot: int)
  {
    && 0 < at && at + 1 < dot && dot + 2 < |s|
    && AllLocal(s[..at])
    && s[at] == '@'
    && AllDomain(s[at + 1..dot])
    && s[dot] == '.'
    && AllLetters(s[dot + 1..])
  }

  /** The language of the pattern: some split of the string fits it. */
  ghost predicate InLanguage(s: string)
  {
    exists at, dot :: EmailSplit(s, at, dot)
  }

  /**
    Automaton states. `Domain`, `Dot`, `Suffix1` and `Suffix2` are all
    "after the @"; they record how much of a `.` + letters ending has been
    read since the last dot that could close a non-empty domain.
   */
  datatype State = Start | Local | AfterAt | Domain | Dot | Suffix1 | Suffix2 | Reject

  function Step(q: State, c: char): State
  {
    match q
    case Start => if IsLocalChar(c) then Local else Reject
    case Local => if IsLocalChar(c) then Local else if c == '@' then AfterAt else Reject
    case AfterAt => if IsDomainChar(c) then Domain else Reject
    case Reject => Reject
    case _ =>
      if c == '.' then Dot
      else if IsAsciiLetter(c) then
        (match q
         case Dot => Suffix1
         case Suffix1 => Suffix2
         case Suffix2 => Suffix2
         case _ => Domain)
      else if IsDomainChar(c) then Domain
      else Reject
  }

  /** The state after reading `s` from `Start`. */
  function Run(s: string): State
    decreases |s|
  {
    if |s| == 0 then Start else Step(Run(s[..|s| - 1]), s[|s| - 1])
  }

  /** The automaton's verdict on the whole string. */
  predicate Matches(s: string)
  {
    Run(s) == Suffix2
  }

  /** `s` is local `@` followed by domain characters only, with the `@` at index `at`. */
  ghost predicate AtSplit(s: string, at: int)
  {
    0 < at < |s| && AllLocal(s[..at]) && s[at] == '@' && AllDomain(s[at + 1..])
  }

  /** What each state says about the prefix read so far. */
  ghost predicate Meaning(q: State, p: string)
  {
    match q
    case Start => p == []
    case Local => |p| > 0 && AllLocal(p)
    case AfterAt => AtSplit(p, |p| - 1)
    case Domain => exists at :: AtSplit(p, at) && at + 1 < |p|
    case Dot => exists at :: AtSplit(p, at) && at + 2 < |p| && p[|p| - 1] == '.'
    case Suffix1 => exists at :: AtSplit(p, at) && at + 3 < |p| && p[|p| - 2] == '.' && IsAsciiLetter(p[|p| - 1])
    case Suffix2 => InLanguage(p)
    case Reject => true
  }

  /** Appending one character keeps `AtSplit` when the character is a domain character. */
  lemma AtSplitSnoc(p: string, at: int, c: char)
    requires AtSplit(p, at) && IsDomainChar(c)
    ensures AtSplit(p + [c], at)
  {
    var p' := p + [c];
    assert p'[..at] == p[..at];
    assert p'[at + 1..] == p[at + 1..] + [c];
  }

  /** One step of the automaton preserves the meaning of its state. */
  lemma StepMeaning(q: State, p: string, c: char)
    requires Meaning(q, p)
    ensures Meaning(Step(q, c), p + [c])
  {
    var p' := p + [c];
    assert p'[..|p'| - 1] == p;
    if q == Start {
      if IsLocalChar(c) {
        assert p' == [c];
      }
    } else if q == Local {
      if c == '@' {
        assert p'[..|p|] == p;
        assert p'[|p| + 1..] == [];
      }
    } else if q == AfterAt {
      if IsDomainChar(c) {
        AtSplitSnoc(p, |p| - 1, c);
      }
    } else if InDomainPart(q) && IsDomainChar(c) {
      var at := DomainPartSplit(q, p);
      AtSplitSnoc(p, at, c);
      if c == '.' {
        assert AtSplit(p', at) && at + 2 < |p'| && p'[|p'| - 1] == '.';
      } else if !IsAsciiLetter(c) || q == Domain {
        assert AtSplit(p', at) && at + 1 < |p'|;
      } else if q == Dot {
        assert AtSplit(p', at) && at + 3 < |p'| && p'[|p'| - 2] == '.';
      } else if q == Suffix1 {
        var at1 :| AtSplit(p, at1) && at1 + 3 < |p| && p[|p| - 2] == '.' && IsAsciiLetter(p[|p| - 1]);
        SplitFromAt(p', at1, |p| - 2);
      } else {
        var a, d :| EmailSplit(p, a, d);
        assert p'[..a] == p[..a];
        assert p'[a + 1..d] == p[a + 1..d];
        assert p'[d + 1..] == p[d + 1..] + [c];
        assert EmailSplit(p', a, d);
      }
    }
  }

  /** In every domain state the prefix is `local@` plus at least one domain character. */
  lemma DomainPartSplit(q: State, p: string) returns (at: int)
    requires InDomainPart(q) && Meaning(q, p)
    ensures AtSplit(p, at) && at + 1 < |p|
  {
    if q == Suffix2 {
      var a, d :| EmailSplit(p, a, d);
      forall i | a + 1 <= i < |p|
        ensures IsDomainChar(p[i])
      {
        if i < d {
          assert p[i] == p[a + 1..d][i - a - 1];
        } else if i > d {
          assert p[i] == p[d + 1..][i - d - 1];
        }
      }
      at := a;
    } else {
      at :| AtSplit(p, at) && at + 1 < |p|;
    }
  }

  /** A dot inside the domain part, followed by letters up to the end, completes a match. */
  lemma SplitFromAt(s: string, at: int, dot: int)
    requires |s| > 0 && AtSplit(s[..|s| - 1], at) && IsAsciiLetter(s[|s| - 1])
    requires at + 1 < dot && dot + 2 < |s| && s[dot] == '.'
    requires forall i | dot < i < |s| :: IsAsciiLetter(s[i])
    ensures EmailSplit(s, at, dot)
  {
    var p := s[..|s| - 1];
    assert s[..at] == p[..at];
    forall i | at + 1 <= i < dot
      ensures IsDomainChar(s[i])
    {
      assert s[i] == p[at + 1..][i - at - 1];
    }
  }

  /** Soundness of every state: after reading `s`, the state's meaning holds of `s`. */
  lemma {:induction false} RunMeaning(s: string)
    ensures Meaning(Run(s), s)
    decreases |s|
  {
    if |s| > 0 {
      var p := s[..|s| - 1];
      RunMeaning(p);
      StepMeaning(Run(p), p, s[|s| - 1]);
      assert p + [s[|s| - 1]] == s;
    }
  }

  /** Reading a non-empty run of local characters ends in `Local`. */
  lemma {:induction false} RunLocalPart(s: string, i: int)
    requires 0 < i <= |s| && AllLocal(s[..i])
    ensures Run(s[..i]) == Local
    decreases i
  {
    assert s[..i][..i - 1] == s[..i - 1];
    if i > 1 {
      assert AllLocal(s[..i - 1]) by {
        forall j | 0 <= j < i - 1 ensures IsLocalChar(s[j]) {
          assert s[j] == s[..i][j];
        }
      }
      RunLocalPart(s, i - 1);
    }
    assert IsLocalChar(s[..i][i - 1]);
  }

  /** The states reached while reading domain characters after the `@`. */
  predicate InDomainPart(q: State)
  {
    q == Domain || q == Dot || q == Suffix1 || q == Suffix2
  }

  /** Reading domain characters after `local@` never leaves the domain states. */
  lemma {:induction false} RunDomainPart(s: string, at: int, j: int)
    requires 0 < at && at + 1 < j <= |s| && Run(s[..at + 1]) == AfterAt
    requires forall i | at < i < j :: IsDomainChar(s[i])
    ensures InDomainPart(Run(s[..j]))
    decreases j
  {
    assert s[..j][..j - 1] == s[..j - 1];
    if j > at + 2 {
      RunDomainPart(s, at, j - 1);
    }
  }

  /** Letters after the final dot: one gives `Suffix1`, two or more give `Suffix2`. */
  lemma {:induction false} RunSuffixPart(s: string, dot: int, j: int)
    requires 0 < dot && dot + 2 <= j <= |s| && Run(s[..dot + 1]) == Dot
    requires forall i | dot < i < j :: IsAsciiLetter(s[i])
    ensures Run(s[..j]) == if j == dot + 2 then Suffix1 else Suffix2
    decreases j
  {
    assert s[..j][..j - 1] == s[..j - 1];
    if j > dot + 2 {
      RunSuffixPart(s, dot, j - 1);
    }
  }

  /** Completeness: every string of the language drives the automaton to `Suffix2`. */
  lemma LanguageRuns(s: string, at: int, dot: int)
    requires EmailSplit(s, at, dot)
    ensures Matches(s)
  {
    assert AllLocal(s[..at]);
    RunLocalPart(s, at);
    assert s[..at + 1][..at] == s[..at];
    forall i | at < i < dot
      ensures IsDomainChar(s[i])
    {
      assert s[i] == s[at + 1..dot][i - at - 1];
    }
    RunDomainPart(s, at, dot);
    assert s[..dot + 1][..dot] == s[..dot];
    forall i | dot < i < |s|
      ensures IsAsciiLetter(s[i])
    {
      assert s[i] == s[dot + 1..][i - dot - 1];
    }
    RunSuffixPart(s, dot, |s|);
    assert s[..|s|] == s;
  }

  /** The automaton accepts exactly the strings of the pattern's language. */
  lemma MatchesIffInLanguage(s: string)
    ensures Matches(s) <==> InLanguage(s)
  {
    RunMeaning(s);
    if InLanguage(s) {
      var at, dot :| EmailSplit(s, at, dot);
      LanguageRuns(s, at, dot);
    }
  }

  /** The pattern tested by a one-pass automaton recogniser: one left-to-right pass, one state variable. */
  method Scan(s: string) returns (accepted: bool)
    ensures accepted <==> InLanguage(s)
  {
    var q := Start;
    var i := 0;
    while i < |s|
      invariant 0 <= i <= |s|
      invariant q == Run(s[..i])
    {
      assert s[..i + 1][..i] == s[..i];
      q := Step(q, s[i]);
      i := i + 1;
    }
    assert s[..|s|] == s;
    accepted := q == Suffix2;
    MatchesIffInLanguage(s);
  }

  /**
    The shape every accepted address has: exactly one `@`, with a non-empty
    part before it, and a final `.` followed by at least two ASCII letters.
   */
  lemma AcceptedShape(s: string) returns (at: int, dot: int)
    requires Matches(s)
    ensures 0 < at < |s| && s[at] == '@'
    ensures forall j | 0 <= j < |s| && s[j] == '@' :: j == at
    ensures at < dot && dot + 2 < |s| && s[dot] == '.'
    ensures forall j | dot < j < |s| :: IsAsciiLetter(s[j])
    ensures |s| >= 6
  {
    MatchesIffInLanguage(s);
    at, dot :| EmailSplit(s, at, dot);
    forall j | 0 <= j < |s| && s[j] == '@'
      ensures j == at
    {
    }
    forall j | dot < j < |s|
      ensures IsAsciiLetter(s[j])
    {
      assert s[j] == s[dot + 1..][j - dot - 1];
    }
  }

  /** A string without an `@` is never accepted. */
  lemma NoAtRejected(s: string)
    requires forall j | 0 <= j < |s| :: s[j] != '@'
    ensures !Matches(s)
  {
    if Matches(s) {
      var at, dot := AcceptedShape(s);
    }
  }

  /** The shortest kind of address is accepted. */
  lemma ShortAddressAccepted()
    ensures Matches("a@b.co")
  {
    var s := "a@b.co";
    assert EmailSplit(s, 1, 3) by {
      assert s[..1] == "a";
      assert s[2..3] == "b";
      assert s[4..] == "co";
    }
    LanguageRuns(s, 1, 3);
  }
}
