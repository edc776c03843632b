/**
 * The identity-format policy of sign-up: an email is accepted when it matches
 * regExp1 = /^[A-Za-z0-9+]*$/ or regExp2, the usual HTML-form email pattern
 *
 *   ^ ( ATOM+ (\. ATOM+)* | ".+" ) @ ( \[ D{1,3} \. D{1,3} \. D{1,3} \. D{1,3} ] | ( LABEL+ \. )+ [a-zA-Z]{2,} ) $
 *
 * where ATOM is [^<>()\[\]\\.,;:\s@"], LABEL is [a-zA-Z\-0-9] and D is [0-9].
 * Each group of the expression is a predicate below, built the way the group
 * is built (runs, repetitions, alternatives, concatenation as a split point),
 * so that the two can be read side by side. Characters are ECMAScript
 * characters; `\s` and `.` follow ECMAScript's definitions.
 */
module IdentityFormat {

  predicate IsAsciiLetter(c: char) { 'A' <= c <= 'Z' || 'a' <= c <= 'z' }

  predicate IsDigit(c: char) { '0' <= c <= '9' }

  /** The class [A-Za-z0-9+] of regExp1. */
  predicate IsPlainIdChar(c: char) { IsAsciiLetter(c) || IsDigit(c) || c == '+' }

  /** regExp1: /^[A-Za-z0-9+]*$/ (the empty string included). */
  predicate RegExp1(s: string)
  {
    forall i :: 0 <= i < |s| ==> IsPlainIdChar(s[i])
  }

  /** ECMAScript LineTerminator: the characters `.` does not match. */
  predicate IsLineTerminator(c: char)
  {
    c as int == 0x0A || c as int == 0x0D || c as int == 0x2028 || c as int == 0x2029
  }

  /** ECMAScript `\s`: WhiteSpace (tab, VT, FF, space, NBSP, BOM, the Zs category) and LineTerminator. */
  predicate IsRegExpSpace(c: char)
  {
    || IsLineTerminator(c)
    || c as int == 0x09 || c as int == 0x0B || c as int == 0x0C || c as int == 0x20
    || c as int == 0xA0 || c as int == 0x1680 || (0x2000 <= c as int <= 0x200A)
    || c as int == 0x202F || c as int == 0x205F || c as int == 0x3000 || c as int == 0xFEFF
  }

  /** The class [^<>()\[\]\\.,;:\s@"] of the unquoted local part. */
  predicate IsAtomChar(c: char)
  {
    && c != '<' && c != '>' && c != '(' && c != ')' && c != '[' && c != ']'
    && c != '\\' && c != '.' && c != ',' && c != ';' && c != ':' && c != '@' && c != '"'
    && !IsRegExpSpace(c)
  }

  /** ATOM+ */
  predicate AtomRun(x: string)
  {
    |x| > 0 && forall i :: 0 <= i < |x| ==> IsAtomChar(x[i])
  }

  /** ATOM+ (\. ATOM+)* : a first run, then zero or more runs each after one '.'. */
  predicate DotAtom(x: string)
    decreases |x|
  {
    || AtomRun(x)
    || exists i :: 0 < i < |x| && x[i] == '.' && AtomRun(x[..i]) && DotAtom(x[i + 1..])
  }

  /** ".+" : a double quote, one or more characters other than line terminators, a double quote. */
  predicate QuotedLocal(x: string)
  {
    && |x| >= 3
    && x[0] == '"' && x[|x| - 1] == '"'
    && forall i :: 0 < i < |x| - 1 ==> !IsLineTerminator(x[i])
  }

  /** The part before '@'. */
  predicate LocalPart(x: string)
  {
    DotAtom(x) || QuotedLocal(x)
  }

  /** [0-9]{1,3} */
  predicate DigitGroup(x: string)
  {
    1 <= |x| <= 3 && forall i :: 0 <= i < |x| ==> IsDigit(x[i])
  }

  /** n digit groups separated by single dots. */
  predicate DottedDigitGroups(x: string, n: nat)
    requires n >= 1
    decreases n
  {
    if n == 1 then DigitGroup(x)
    else exists i :: 0 < i < |x| && x[i] == '.' && DigitGroup(x[..i]) && DottedDigitGroups(x[i + 1..], n - 1)
  }

  /** \[ D{1,3} \. D{1,3} \. D{1,3} \. D{1,3} ] */
  predicate AddressLiteral(y: string)
  {
    |y| >= 2 && y[0] == '[' && y[|y| - 1] == ']' && DottedDigitGroups(y[1..|y| - 1], 4)
  }

  /** The class [a-zA-Z\-0-9] of a domain label. */
  predicate IsLabelChar(c: char) { IsAsciiLetter(c) || IsDigit(c) || c == '-' }

  /** LABEL+ */
  predicate LabelRun(x: string)
  {
    |x| > 0 && forall i :: 0 <= i < |x| ==> IsLabelChar(x[i])
  }

  /** ( LABEL+ \. )+ : one or more labels, each followed by a '.'. */
  predicate DottedLabels(x: string)
    decreases |x|
  {
    exists i :: 0 < i < |x| && x[i] == '.' && LabelRun(x[..i]) && (i == |x| - 1 || DottedLabels(x[i + 1..]))
  }

  /** [a-zA-Z]{2,} */
  predicate TopLevelLabel(x: string)
  {
    |x| >= 2 && forall i :: 0 <= i < |x| ==> IsAsciiLetter(x[i])
  }

  /** ( LABEL+ \. )+ [a-zA-Z]{2,} */
  predicate HostName(y: string)
  {
    exists j :: 0 < j < |y| && DottedLabels(y[..j]) && TopLevelLabel(y[j..])
  }

  /** The part after '@'. */
  predicate Domain(y: string)
  {
    AddressLiteral(y) || HostName(y)
  }

  /** regExp2: some '@' of s splits it into a local part and a domain. */
  predicate RegExp2(s: string)
  {
    exists i :: 0 <= i < |s| && s[i] == '@' && LocalPart(s[..i]) && Domain(s[i + 1..])
  }

  /** The sign-up format check passes: `regExp1.test(email) || regExp2.test(email)`. */
  predicate IsValidIdentity(s: string)
  {
    RegExp1(s) || RegExp2(s)
  }

  // ---------------------------------------------------------------------------
  // Flat characterisations: the same languages described character by character.
  // ---------------------------------------------------------------------------

  /** Index of the first occurrence of c in x, or |x| when there is none. */
  function IndexOf(x: string, c: char): (k: nat)
    ensures k <= |x|
    ensures k < |x| ==> x[k] == c
    ensures forall j :: 0 <= j < k ==> x[j] != c
  {
    if x == [] then 0
    else if x[0] == c then 0
    else 1 + IndexOf(x[1..], c)
  }

  /** Only atom characters and dots, no dot at either end, no two dots in a row. */
  predicate DotAtomShape(x: string)
  {
    && |x| > 0
    && x[0] != '.' && x[|x| - 1] != '.'
    && (forall i :: 0 <= i < |x| ==> IsAtomChar(x[i]) || x[i] == '.')
    && (forall i :: 0 <= i < |x| - 1 && x[i] == '.' ==> x[i + 1] != '.')
  }

  /** The unquoted local part matches exactly the strings of that shape. */
  lemma DotAtomIsShape(x: string)
    ensures DotAtom(x) <==> DotAtomShape(x)
  {
    if DotAtom(x) {
      DotAtomHasShape(x);
    }
    if DotAtomShape(x) {
      ShapeIsDotAtom(x);
    }
  }

  lemma {:induction false} DotAtomHasShape(x: string)
    requires DotAtom(x)
    ensures DotAtomShape(x)
    decreases |x|
  {
    if AtomRun(x) {
      AtomRunHasShape(x);
    } else {
      var i :| 0 < i < |x| && x[i] == '.' && AtomRun(x[..i]) && DotAtom(x[i + 1..]);
      DotAtomHasShape(x[i + 1..]);
      DotAtomShapeJoin(x, i);
    }
  }

  /** A run of atom characters alone has the dotted shape. */
  lemma {:induction false} AtomRunHasShape(x: string)
    requires AtomRun(x)
    ensures DotAtomShape(x)
  {
    assert !IsAtomChar('.');
    forall j | 0 <= j < |x| ensures x[j] != '.' {
      assert IsAtomChar(x[j]);
    }
  }

  /** A run of atom characters, a dot and a string of the dotted shape have the dotted shape. */
  lemma {:induction false} DotAtomShapeJoin(x: string, i: nat)
    requires 0 < i < |x| && x[i] == '.' && AtomRun(x[..i]) && DotAtomShape(x[i + 1..])
    ensures DotAtomShape(x)
  {
    var run, rest := x[..i], x[i + 1..];
    assert !IsAtomChar('.');
    forall j | 0 <= j < i ensures IsAtomChar(x[j]) {
      assert x[j] == run[j];
    }
    forall j | i < j < |x| ensures IsAtomChar(x[j]) || x[j] == '.' {
      assert x[j] == rest[j - i - 1];
    }
    forall j | i <= j < |x| - 1 && x[j] == '.' ensures x[j + 1] != '.' {
      if j == i {
        assert x[j + 1] == rest[0];
      } else {
        assert x[j] == rest[j - i - 1] && x[j + 1] == rest[j - i];
      }
    }
    assert x[0] == run[0];
    assert x[|x| - 1] == rest[|rest| - 1];
  }

  lemma {:induction false} ShapeIsDotAtom(x: string)
    requires DotAtomShape(x)
    ensures DotAtom(x)
    decreases |x|
  {
    var i := IndexOf(x, '.');
    if i == |x| {
      assert AtomRun(x);
    } else {
      var rest := x[i + 1..];
      assert 0 < i < |x| - 1;
      assert AtomRun(x[..i]) by {
        forall j | 0 <= j < i ensures IsAtomChar(x[..i][j]) {
          assert x[..i][j] == x[j];
        }
      }
      assert DotAtomShape(rest) by {
        assert rest[0] == x[i + 1];
        forall j | 0 <= j < |rest| ensures IsAtomChar(rest[j]) || rest[j] == '.' {
          assert rest[j] == x[i + 1 + j];
        }
        forall j | 0 <= j < |rest| - 1 && rest[j] == '.' ensures rest[j + 1] != '.' {
          assert rest[j] == x[i + 1 + j] && rest[j + 1] == x[i + 2 + j];
        }
      }
      ShapeIsDotAtom(rest);
    }
  }

  /** Only label characters and dots, no leading dot, a trailing dot, no two dots in a row. */
  predicate DottedLabelsShape(x: string)
  {
    && |x| >= 2
    && x[0] != '.' && x[|x| - 1] == '.'
    && (forall i :: 0 <= i < |x| ==> IsLabelChar(x[i]) || x[i] == '.')
    && (forall i :: 0 <= i < |x| - 1 && x[i] == '.' ==> x[i + 1] != '.')
  }

  /** The dotted labels of a host name are exactly the strings of that shape. */
  lemma DottedLabelsIsShape(x: string)
    ensures DottedLabels(x) <==> DottedLabelsShape(x)
  {
    if DottedLabels(x) {
      DottedLabelsHaveShape(x);
    }
    if DottedLabelsShape(x) {
      ShapeIsDottedLabels(x);
    }
  }

  lemma {:induction false} DottedLabelsHaveShape(x: string)
    requires DottedLabels(x)
    ensures DottedLabelsShape(x)
    decreases |x|
  {
    var i :| 0 < i < |x| && x[i] == '.' && LabelRun(x[..i]) && (i == |x| - 1 || DottedLabels(x[i + 1..]));
    if i < |x| - 1 {
      DottedLabelsHaveShape(x[i + 1..]);
    }
    DottedLabelsShapeJoin(x, i);
  }

  /** A label, a dot and either nothing or a string of the dotted-labels shape have that shape. */
  lemma {:induction false} DottedLabelsShapeJoin(x: string, i: nat)
    requires 0 < i < |x| && x[i] == '.' && LabelRun(x[..i])
    requires i == |x| - 1 || DottedLabelsShape(x[i + 1..])
    ensures DottedLabelsShape(x)
  {
    assert !IsLabelChar('.');
    assert x[0] == x[..i][0];
    forall j | 0 <= j < i ensures IsLabelChar(x[j]) {
      assert x[j] == x[..i][j];
    }
    if i < |x| - 1 {
      var rest := x[i + 1..];
      forall j | i < j < |x| ensures IsLabelChar(x[j]) || x[j] == '.' {
        assert x[j] == rest[j - i - 1];
      }
      forall j | i <= j < |x| - 1 && x[j] == '.' ensures x[j + 1] != '.' {
        if j == i {
          assert x[j + 1] == rest[0];
        } else {
          assert x[j] == rest[j - i - 1] && x[j + 1] == rest[j - i];
        }
      }
      assert x[|x| - 1] == rest[|rest| - 1];
    }
  }

  lemma {:induction false} ShapeIsDottedLabels(x: string)
    requires DottedLabelsShape(x)
    ensures DottedLabels(x)
    decreases |x|
  {
    var i := IndexOf(x, '.');
    assert 0 < i < |x|;
    assert LabelRun(x[..i]) by {
      forall j | 0 <= j < i ensures IsLabelChar(x[..i][j]) {
        assert x[..i][j] == x[j];
      }
    }
    if i < |x| - 1 {
      var rest := x[i + 1..];
      assert DottedLabelsShape(rest) by {
        assert rest[0] == x[i + 1];
        assert rest[|rest| - 1] == x[|x| - 1];
        forall j | 0 <= j < |rest| ensures IsLabelChar(rest[j]) || rest[j] == '.' {
          assert rest[j] == x[i + 1 + j];
        }
        forall j | 0 <= j < |rest| - 1 && rest[j] == '.' ensures rest[j + 1] != '.' {
          assert rest[j] == x[i + 1 + j] && rest[j + 1] == x[i + 2 + j];
        }
      }
      ShapeIsDottedLabels(rest);
    }
  }

  // ---------------------------------------------------------------------------
  // How the two expressions relate, and concrete inputs.
  // ---------------------------------------------------------------------------

  /** regExp1 never admits '@', regExp2 always needs one: every accepted string matches exactly one of them. */
  lemma {:induction false} FormatsAreDisjoint(s: string)
    ensures RegExp1(s) ==> '@' !in s
    ensures RegExp2(s) ==> '@' in s
    ensures !(RegExp1(s) && RegExp2(s))
  {
    if RegExp1(s) {
      forall k | 0 <= k < |s| ensures s[k] != '@' {
        assert IsPlainIdChar(s[k]);
      }
    }
    if RegExp2(s) {
      var i :| 0 <= i < |s| && s[i] == '@' && LocalPart(s[..i]) && Domain(s[i + 1..]);
      assert s[i] in s;
    }
  }

  /** When the local part and the domain hold no '@', regExp2 can only split at the one '@' between them. */
  lemma {:induction false} SingleAtSplit(local: string, domain: string)
    requires '@' !in local && '@' !in domain
    ensures RegExp2(local + "@" + domain) <==> LocalPart(local) && Domain(domain)
  {
    var s := local + "@" + domain;
    var k := |local|;
    assert s[k] == '@';
    assert s[..k] == local;
    assert s[k + 1..] == domain;
    forall i | 0 <= i < |s| && i != k ensures s[i] != '@' {
      if i < k {
        assert s[i] == local[i];
      } else {
        assert s[i] == domain[i - k - 1];
      }
    }
  }

  /** A local part and a domain joined by '@' pass the format check, whatever else they contain. */
  lemma {:induction false} JoinedAccepted(local: string, domain: string)
    requires LocalPart(local) && Domain(domain)
    ensures IsValidIdentity(local + "@" + domain)
  {
    var s := local + "@" + domain;
    var k := |local|;
    assert s[k] == '@';
    assert s[..k] == local;
    assert s[k + 1..] == domain;
  }

  /** A run of atom characters, a dot and a dotted local part form a dotted local part. */
  lemma {:induction false} DotAtomJoin(run: string, rest: string)
    requires AtomRun(run) && DotAtom(rest)
    ensures DotAtom(run + "." + rest)
  {
    var x := run + "." + rest;
    var k := |run|;
    assert x[k] == '.';
    assert x[..k] == run;
    assert x[k + 1..] == rest;
  }

  /** A label, a dot and either nothing or further dotted labels form dotted labels. */
  lemma {:induction false} DottedLabelsJoin(first: string, rest: string)
    requires LabelRun(first) && (rest == "" || DottedLabels(rest))
    ensures DottedLabels(first + "." + rest)
  {
    var x := first + "." + rest;
    var k := |first|;
    assert x[k] == '.';
    assert x[..k] == first;
    assert x[k + 1..] == rest;
  }

  /** Dotted labels followed by a top-level label form a host-name domain. */
  lemma {:induction false} HostNameJoin(labels: string, tld: string)
    requires DottedLabels(labels) && TopLevelLabel(tld)
    ensures Domain(labels + tld)
  {
    var y := labels + tld;
    var i :| 0 < i < |labels| && labels[i] == '.' && LabelRun(labels[..i]) && (i == |labels| - 1 || DottedLabels(labels[i + 1..]));
    assert y[..|labels|] == labels;
    assert y[|labels|..] == tld;
  }

  /** ASCII letters and digits are both atom characters and label characters. */
  lemma {:induction false} AlnumRun(x: string)
    requires |x| > 0 && forall i :: 0 <= i < |x| ==> IsAsciiLetter(x[i]) || IsDigit(x[i])
    ensures AtomRun(x) && LabelRun(x)
  {
    forall i | 0 <= i < |x| ensures IsAtomChar(x[i]) && IsLabelChar(x[i]) {
      assert IsAsciiLetter(x[i]) || IsDigit(x[i]);
    }
  }

  lemma PlainIdAccepted()
    ensures IsValidIdentity("abc123")
  {
  }

  lemma ShortEmailAccepted(s: string)
    requires s == "a@b.co"
    ensures IsValidIdentity(s)
  {
    var local, domain := s[..1], s[2..];
    assert s == local + "@" + domain;
    AlnumRun(local);
    var labels, tld := domain[..2], domain[2..];
    assert domain == labels + tld;
    AlnumRun(labels[..1]);
    DottedLabelsJoin(labels[..1], "");
    assert labels == labels[..1] + "." + "";
    assert TopLevelLabel(tld);
    HostNameJoin(labels, tld);
    JoinedAccepted(local, domain);
  }

  /** The dotted local part of the example address. */
  lemma DottedLocalExample(x: string)
    requires x == "john.doe"
    ensures LocalPart(x)
  {
    var run, rest := x[..4], x[5..];
    assert x == run + "." + rest;
    AlnumRun(run);
    AlnumRun(rest);
    DotAtomJoin(run, rest);
  }

  /** A single label and its dot. */
  lemma OneLabelExample(x: string)
    requires x == "example."
    ensures DottedLabels(x)
  {
    var first := x[..7];
    assert x == first + "." + "";
    AlnumRun(first);
    DottedLabelsJoin(first, "");
  }

  /** Two labels, each with its dot. */
  lemma TwoLabelsExample(x: string)
    requires x == "mail.example."
    ensures DottedLabels(x)
  {
    var first, rest := x[..4], x[5..];
    assert x == first + "." + rest;
    AlnumRun(first);
    OneLabelExample(rest);
    DottedLabelsJoin(first, rest);
  }

  /** The three-label domain of the example address. */
  lemma SubdomainExample(d: string)
    requires d == "mail.example.com"
    ensures Domain(d)
  {
    var labels, tld := d[..13], d[13..];
    assert d == labels + tld;
    TwoLabelsExample(labels);
    assert TopLevelLabel(tld);
    HostNameJoin(labels, tld);
  }

  lemma DottedEmailAccepted(s: string)
    requires s == "john.doe@mail.example.com"
    ensures IsValidIdentity(s)
  {
    var local, domain := s[..8], s[9..];
    assert s == local + "@" + domain;
    DottedLocalExample(local);
    SubdomainExample(domain);
    JoinedAccepted(local, domain);
  }

  lemma QuotedEmailAccepted(s: string)
    requires s == "\"john doe\"@example.com"
    ensures IsValidIdentity(s)
  {
    var local, domain := s[..10], s[11..];
    assert s == local + "@" + domain;
    assert QuotedLocal(local);
    var labels, tld := domain[..8], domain[8..];
    assert domain == labels + tld;
    OneLabelExample(labels);
    assert TopLevelLabel(tld);
    HostNameJoin(labels, tld);
    JoinedAccepted(local, domain);
  }

  /** Prepending one group and a dot to n - 1 dotted groups gives n dotted groups. */
  lemma {:induction false} DottedDigitGroupsCons(group: string, rest: string, n: nat)
    requires n >= 2 && DigitGroup(group) && DottedDigitGroups(rest, n - 1)
    ensures DottedDigitGroups(group + "." + rest, n)
  {
    var x := group + "." + rest;
    assert x[|group|] == '.';
    assert x[..|group|] == group;
    assert x[|group| + 1..] == rest;
  }

  /** Any four groups of one to three digits, dotted and bracketed, form an address literal. */
  lemma {:induction false} AddressLiteralOf(a: string, b: string, c: string, d: string)
    requires DigitGroup(a) && DigitGroup(b) && DigitGroup(c) && DigitGroup(d)
    ensures AddressLiteral("[" + (a + "." + (b + "." + (c + "." + d))) + "]")
  {
    DottedDigitGroupsCons(c, d, 2);
    DottedDigitGroupsCons(b, c + "." + d, 3);
    DottedDigitGroupsCons(a, b + "." + (c + "." + d), 4);
    var inner := a + "." + (b + "." + (c + "." + d));
    var y := "[" + inner + "]";
    assert y[1..|y| - 1] == inner;
  }

  /** The bracketed dotted quad of the example address. */
  lemma AddressLiteralExample(d: string)
    requires d == "[192.168.0.1]"
    ensures Domain(d)
  {
    var a, b, c, e := d[1..4], d[5..8], d[9..10], d[11..12];
    assert DigitGroup(a) && DigitGroup(b) && DigitGroup(c) && DigitGroup(e);
    assert d == "[" + (a + "." + (b + "." + (c + "." + e))) + "]";
    AddressLiteralOf(a, b, c, e);
  }

  lemma AddressLiteralEmailAccepted(s: string)
    requires s == "user@[192.168.0.1]"
    ensures IsValidIdentity(s)
  {
    var local, domain := s[..4], s[5..];
    assert s == local + "@" + domain;
    AlnumRun(local);
    AddressLiteralExample(domain);
    JoinedAccepted(local, domain);
  }

  lemma SpaceRejected()
    ensures !IsValidIdentity("bad email!")
  {
    var s := "bad email!";
    assert s[3] == ' ' && !IsPlainIdChar(s[3]);
    FormatsAreDisjoint(s);
  }

  lemma DoubleDotRejected()
    ensures !IsValidIdentity("a..b@c.com")
  {
    assert "a..b" + "@" + "c.com" == "a..b@c.com";
    SingleAtSplit("a..b", "c.com");
    DotAtomIsShape("a..b");
    assert "a..b"[1] == '.' && "a..b"[2] == '.';
    assert !QuotedLocal("a..b");
    assert "a..b@c.com"[1] == '.';
    assert !RegExp1("a..b@c.com");
  }

  lemma ShortTopLevelRejected()
    ensures !IsValidIdentity("a@bb.c")
  {
    assert "a" + "@" + "bb.c" == "a@bb.c";
    SingleAtSplit("a", "bb.c");
    var d := "bb.c";
    forall j | 0 < j < |d| ensures !DottedLabels(d[..j]) || !TopLevelLabel(d[j..]) {
      if j < 3 {
        DottedLabelsIsShape(d[..j]);
        assert d[0] == 'b' && d[1] == 'b';
        assert d[..j][j - 1] == d[j - 1];
      } else {
        assert |d[j..]| == 1;
      }
    }
    assert !HostName(d);
    assert "a@bb.c"[1] == '@';
    assert !RegExp1("a@bb.c");
  }

  lemma EmptyLocalRejected()
    ensures !IsValidIdentity("@b.co")
  {
    assert "" + "@" + "b.co" == "@b.co";
    SingleAtSplit("", "b.co");
    assert "@b.co"[0] == '@';
  }

  lemma MissingDotRejected()
    ensures !IsValidIdentity("a@b")
  {
    assert "a" + "@" + "b" == "a@b";
    SingleAtSplit("a", "b");
    assert "a@b"[1] == '@';
  }
}
