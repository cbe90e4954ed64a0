/** The pair of text utilities that turn an enum token such as IN_PERSON into the
    display label "In Person" (capitalizeAndFormat) and a label back into a token
    (toEnumFormat). Case mapping covers ASCII letters only. */
module EnumFormat {

  predicate IsUpper(c: char) { 'A' <= c <= 'Z' }
  predicate IsLower(c: char) { 'a' <= c <= 'z' }
  predicate IsDigit(c: char) { '0' <= c <= '9' }
  predicate IsLetter(c: char) { IsUpper(c) || IsLower(c) }

  /** The regular-expression class \w (no Unicode flag): ASCII letters, digits and underscore. */
  predicate IsWordChar(c: char) { IsLetter(c) || IsDigit(c) || c == '_' }

  /** The regular-expression class \s: ASCII and Unicode white space and line terminators. */
  predicate IsSpace(c: char)
  {
    c == ' ' || c == '\t' || c == '\n' || c == '\U{B}' || c == '\U{C}' || c == '\r'
    || c == '\U{A0}' || c == '\U{1680}' || ('\U{2000}' <= c <= '\U{200A}')
    || c == '\U{2028}' || c == '\U{2029}' || c == '\U{202F}' || c == '\U{205F}'
    || c == '\U{3000}' || c == '\U{FEFF}'
  }

  function LowerChar(c: char): (r: char)
    ensures IsLetter(c) <==> IsLetter(r)
    ensures !IsUpper(r)
  {
    if IsUpper(c) then (c as int + 32) as char else c
  }

  function UpperChar(c: char): (r: char)
    ensures IsLetter(c) <==> IsLetter(r)
    ensures !IsLower(r)
  {
    if IsLower(c) then (c as int - 32) as char else c
  }

  /** String.prototype.toLowerCase, restricted to ASCII. */
  function ToLowerCase(s: string): string
  {
    seq(|s|, i requires 0 <= i < |s| => LowerChar(s[i]))
  }

  /** String.prototype.toUpperCase, restricted to ASCII. */
  function ToUpperCase(s: string): string
  {
    seq(|s|, i requires 0 <= i < |s| => UpperChar(s[i]))
  }

  /** text.replace(/_/g, " ") */
  function ReplaceUnderscores(s: string): string
  {
    seq(|s|, i requires 0 <= i < |s| => if s[i] == '_' then ' ' else s[i])
  }

  /** A \b\w match: a word character at the start of the string or after a non-word character. */
  predicate StartsWord(s: string, i: int)
    requires 0 <= i < |s|
  {
    IsWordChar(s[i]) && (i == 0 || !IsWordChar(s[i - 1]))
  }

  /** text.replace(/\b\w/g, c => c.toUpperCase()): every match is found in the string as it was. */
  function CapitalizeWordStarts(s: string): string
  {
    seq(|s|, i requires 0 <= i < |s| => if StartsWord(s, i) then UpperChar(s[i]) else s[i])
  }

  /** capitalizeAndFormat: lower-case everything, underscores become spaces, and each word
      starts with a capital letter. */
  function CapitalizeAndFormat(text: string): (r: string)
    ensures |r| == |text|
    ensures forall i :: 0 <= i < |r| ==> r[i] != '_'
    ensures forall i :: 0 <= i < |r| ==> (r[i] == ' ' <==> text[i] == '_' || text[i] == ' ')
    ensures forall i :: 0 <= i < |r| && text[i] != '_' ==> LowerChar(r[i]) == LowerChar(text[i])
    ensures forall i :: 0 <= i < |r| && IsLetter(r[i]) ==>
              (IsUpper(r[i]) <==> i == 0 || !IsWordChar(r[i - 1]))
  {
    if text == [] then []
    else CapitalizeWordStarts(ReplaceUnderscores(ToLowerCase(text)))
  }

  /** Formatting a label a second time changes nothing. */
  lemma CapitalizeIdempotent(text: string)
    ensures CapitalizeAndFormat(CapitalizeAndFormat(text)) == CapitalizeAndFormat(text)
  {
    var r := CapitalizeAndFormat(text);
    var rr := CapitalizeAndFormat(r);
    if r != [] {
      var s := ReplaceUnderscores(ToLowerCase(text));
      var s' := ReplaceUnderscores(ToLowerCase(r));
      assert s' == s by {
        forall i | 0 <= i < |s| ensures s'[i] == s[i] {
          assert r[i] == if StartsWord(s, i) then UpperChar(s[i]) else s[i];
        }
      }
    }
  }

  /** The examples the function's documentation gives. */
  lemma CapitalizeExamples()
    ensures CapitalizeAndFormat("IN_PERSON") == "In Person"
    ensures CapitalizeAndFormat("PENDING") == "Pending"
  {
    var s := ReplaceUnderscores(ToLowerCase("IN_PERSON"));
    assert s == "in person";
    var t := ReplaceUnderscores(ToLowerCase("PENDING"));
    assert t == "pending";
  }

  /** Drops the white space at the front of a string. */
  function DropSpaces(s: string): (r: string)
    ensures |r| <= |s| && r == s[|s| - |r|..]
    ensures r == [] || !IsSpace(r[0])
    ensures s != [] && IsSpace(s[0]) ==> |r| < |s|
  {
    if s != [] && IsSpace(s[0]) then DropSpaces(s[1..]) else s
  }

  /** text.replace(/\s+/g, "_"): each maximal run of white space becomes one underscore. */
  function ReplaceSpaceRuns(s: string): (r: string)
    ensures forall i :: 0 <= i < |r| ==> !IsSpace(r[i])
    decreases |s|
  {
    if s == [] then []
    else if IsSpace(s[0]) then "_" + ReplaceSpaceRuns(DropSpaces(s))
    else [s[0]] + ReplaceSpaceRuns(s[1..])
  }

  /** toEnumFormat: white-space runs become underscores and letters are upper-cased. */
  function ToEnumFormat(text: string): (r: string)
    ensures forall i :: 0 <= i < |r| ==> !IsSpace(r[i]) && !IsLower(r[i])
  {
    if text == [] then []
    else ToUpperCase(ReplaceSpaceRuns(text))
  }

  /** Reference reading of /\s+/g, one character at a time: a white-space character turns
      into an underscore when it opens a run and disappears when it continues one. */
  function Squeeze(s: string, afterSpace: bool): string
  {
    if s == [] then []
    else if IsSpace(s[0]) then (if afterSpace then [] else "_") + Squeeze(s[1..], true)
    else [s[0]] + Squeeze(s[1..], false)
  }

  lemma {:induction false} SqueezeSkipsRun(u: string)
    ensures Squeeze(u, true) == Squeeze(DropSpaces(u), false)
    decreases |u|
  {
    if u != [] {
      if IsSpace(u[0]) {
        SqueezeSkipsRun(u[1..]);
      }
    }
  }

  /** Replacing whole runs agrees with the character-by-character reading. */
  lemma {:induction false} ReplaceSpaceRunsIsSqueeze(s: string)
    ensures ReplaceSpaceRuns(s) == Squeeze(s, false)
    decreases |s|
  {
    if s != [] {
      if IsSpace(s[0]) {
        var d := DropSpaces(s);
        assert DropSpaces(s) == DropSpaces(s[1..]);
        SqueezeSkipsRun(s[1..]);
        ReplaceSpaceRunsIsSqueeze(d);
      } else {
        ReplaceSpaceRunsIsSqueeze(s[1..]);
      }
    }
  }

  /** Converting a token a second time changes nothing. */
  lemma ToEnumIdempotent(text: string)
    ensures ToEnumFormat(ToEnumFormat(text)) == ToEnumFormat(text)
  {
    var r := ToEnumFormat(text);
    if r != [] {
      NoSpaceUnchanged(r);
      assert ToUpperCase(r) == r;
    }
  }

  lemma {:induction false} NoSpaceUnchanged(s: string)
    requires forall i :: 0 <= i < |s| ==> !IsSpace(s[i])
    ensures ReplaceSpaceRuns(s) == s
    decreases |s|
  {
    if s != [] {
      NoSpaceUnchanged(s[1..]);
    }
  }

  /** The examples the function's documentation gives. */
  lemma ToEnumExamples()
    ensures ToEnumFormat("In Person") == "IN_PERSON"
    ensures ToEnumFormat("Pending") == "PENDING"
  {
    RoundTrip("IN_PERSON");
    CapitalizeExamples();
    RoundTrip("PENDING");
  }

  /** An enum token: upper-case letters, digits and underscores, never two underscores in a row. */
  predicate IsEnumToken(t: string)
  {
    && (forall i :: 0 <= i < |t| ==> IsUpper(t[i]) || IsDigit(t[i]) || t[i] == '_')
    && (forall i :: 0 <= i && i + 1 < |t| ==> !(t[i] == '_' && t[i + 1] == '_'))
  }

  /** Each white-space character replaced by an underscore. */
  function SpacesToUnderscores(s: string): string
  {
    seq(|s|, i requires 0 <= i < |s| => if IsSpace(s[i]) then '_' else s[i])
  }

  lemma {:induction false} SingleSpacesBecomeUnderscores(s: string)
    requires forall i :: 0 <= i && i + 1 < |s| ==> !(IsSpace(s[i]) && IsSpace(s[i + 1]))
    ensures ReplaceSpaceRuns(s) == SpacesToUnderscores(s)
    decreases |s|
  {
    if s != [] {
      SingleSpacesBecomeUnderscores(s[1..]);
      if IsSpace(s[0]) {
        assert DropSpaces(s) == s[1..];
      }
      assert SpacesToUnderscores(s) == [SpacesToUnderscores(s)[0]] + SpacesToUnderscores(s[1..]);
    }
  }

  /** What a token character becomes in the label: a space for an underscore, otherwise
      the same letter in either case or the same digit. */
  lemma LabelChar(t: string, i: int)
    requires IsEnumToken(t) && 0 <= i < |t|
    ensures var c := CapitalizeAndFormat(t);
      (c[i] == ' ' <==> t[i] == '_') && (IsSpace(c[i]) <==> c[i] == ' ') && (t[i] != '_' ==> UpperChar(c[i]) == t[i])
  {
    var c := CapitalizeAndFormat(t);
    var s := ReplaceUnderscores(ToLowerCase(t));
    assert c[i] == if StartsWord(s, i) then UpperChar(s[i]) else s[i];
    if t[i] == '_' {
      assert s[i] == ' ';
    } else {
      assert s[i] == LowerChar(t[i]);
      assert IsLetter(c[i]) || IsDigit(c[i]);
    }
  }

  /** Displaying a token and converting the label back gives the token again. */
  lemma RoundTrip(t: string)
    requires IsEnumToken(t)
    ensures ToEnumFormat(CapitalizeAndFormat(t)) == t
  {
    var c := CapitalizeAndFormat(t);
    if c != [] {
      forall i | 0 <= i && i + 1 < |c| ensures !(IsSpace(c[i]) && IsSpace(c[i + 1])) {
        LabelChar(t, i);
        LabelChar(t, i + 1);
      }
      SingleSpacesBecomeUnderscores(c);
      var u := SpacesToUnderscores(c);
      forall i | 0 <= i < |t| ensures ToUpperCase(u)[i] == t[i] {
        LabelChar(t, i);
      }
      assert ToUpperCase(u) == t;
    }
  }
}
