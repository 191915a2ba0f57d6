/**
 * The e-mail pattern of `checkEmailValidation`:
 *
 *   ^( A+(\.A+)* | ".+" ) @ ( \[D{1,3}\.D{1,3}\.D{1,3}\.D{1,3}\] | ([a-zA-Z\-0-9]+\.)+[a-zA-Z]{2,} )$
 *
 * where A is any character except < > ( ) [ ] \ . , ; : @ " and white space, and D a
 * decimal digit. It is a loose approximation of the addr-spec of section 3.4.1 of
 * RFC 5322. The pattern is given twice: once shaped like the regular expression, where
 * every concatenation is an existential choice of split point (what a backtracking
 * matcher searches), and once as a deterministic recognizer that splits at the first
 * '.', the last '.' or the last '@'. The lemmas prove the two agree.
 */
module EmailPattern {
  import opened JsString

  /** A character of the class [^<>()\[\]\\.,;:\s@"]. */
  predicate AtomChar(c: char) {
    c != '<' && c != '>' && c != '(' && c != ')' && c != '[' && c != ']' && c != '\\' &&
    c != '.' && c != ',' && c != ';' && c != ':' && c != '@' && c != '"' && !IsSpace(c)
  }

  /** A character of the class [a-zA-Z\-0-9]. */
  predicate LabelChar(c: char) {
    'a' <= c <= 'z' || 'A' <= c <= 'Z' || c == '-' || IsDigit(c)
  }

  predicate IsLetter(c: char) {
    'a' <= c <= 'z' || 'A' <= c <= 'Z'
  }

  /** The characters `.` does not match (no `s` flag). */
  predicate IsLineTerminator(c: char) {
    c == '\n' || c == '\r' || c == '\U{2028}' || c == '\U{2029}'
  }

  /** [^<>()\[\]\\.,;:\s@"]+ */
  predicate AtomRun(s: string) {
    |s| > 0 && forall i :: 0 <= i < |s| ==> AtomChar(s[i])
  }

  /** [a-zA-Z\-0-9]+ */
  predicate LabelRun(s: string) {
    |s| > 0 && forall i :: 0 <= i < |s| ==> LabelChar(s[i])
  }

  /** [0-9]{1,3} */
  predicate Octet(s: string) {
    1 <= |s| <= 3 && forall i :: 0 <= i < |s| ==> IsDigit(s[i])
  }

  /** [a-zA-Z]{2,} */
  predicate TopLabel(s: string) {
    |s| >= 2 && forall i :: 0 <= i < |s| ==> IsLetter(s[i])
  }

  /** ".+" */
  predicate Quoted(s: string) {
    |s| >= 3 && s[0] == '"' && s[|s| - 1] == '"' &&
    forall i :: 0 < i < |s| - 1 ==> !IsLineTerminator(s[i])
  }

  // ---------------------------------------------------------------------------
  // The pattern as the regular expression states it

  /** A+(\.A+)* */
  ghost predicate DotAtomRe(s: string)
    decreases |s|
  {
    AtomRun(s) ||
    exists k :: 0 < k < |s| && s[k] == '.' && AtomRun(s[..k]) && DotAtomRe(s[k + 1..])
  }

  ghost predicate LocalRe(s: string) {
    DotAtomRe(s) || Quoted(s)
  }

  /** n octets separated by dots: D{1,3}(\.D{1,3}){n-1} */
  ghost predicate OctetsRe(s: string, n: nat)
    decreases n
  {
    if n <= 1 then Octet(s)
    else exists k :: 0 < k < |s| && s[k] == '.' && Octet(s[..k]) && OctetsRe(s[k + 1..], n - 1)
  }

  /** \[D{1,3}\.D{1,3}\.D{1,3}\.D{1,3}\] */
  ghost predicate AddressLiteralRe(s: string) {
    |s| >= 2 && s[0] == '[' && s[|s| - 1] == ']' && OctetsRe(s[1..|s| - 1], 4)
  }

  /** ([a-zA-Z\-0-9]+\.)+ */
  ghost predicate LabelsRe(s: string)
    decreases |s|
  {
    exists k :: 0 < k < |s| && s[k] == '.' && LabelRun(s[..k]) &&
      (k + 1 == |s| || LabelsRe(s[k + 1..]))
  }

  /** ([a-zA-Z\-0-9]+\.)+[a-zA-Z]{2,} */
  ghost predicate HostRe(s: string) {
    exists k :: 0 < k < |s| && s[k - 1] == '.' && LabelsRe(s[..k]) && TopLabel(s[k..])
  }

  ghost predicate DomainRe(s: string) {
    AddressLiteralRe(s) || HostRe(s)
  }

  /** The whole anchored pattern: some '@' splits s into a local part and a domain. */
  ghost predicate EmailRe(s: string) {
    exists i :: 0 <= i < |s| && s[i] == '@' && LocalRe(s[..i]) && DomainRe(s[i + 1..])
  }

  // ---------------------------------------------------------------------------
  // The deterministic recognizer

  /** Position of the first c in s, or |s| when there is none. */
  function IndexOf(s: string, c: char): (k: nat)
    ensures k <= |s|
    ensures k < |s| ==> s[k] == c
    ensures forall i :: 0 <= i < k ==> s[i] != c
  {
    if s == [] || s[0] == c then 0 else 1 + IndexOf(s[1..], c)
  }

  /** Position of the last c in s, or -1 when there is none. */
  function LastIndexOf(s: string, c: char): (k: int)
    ensures -1 <= k < |s|
    ensures k >= 0 ==> s[k] == c
    ensures forall i :: k < i < |s| ==> s[i] != c
  {
    if s == [] then -1
    else if s[|s| - 1] == c then |s| - 1
    else LastIndexOf(s[..|s| - 1], c)
  }

  predicate DotAtom(s: string)
    decreases |s|
  {
    var k := IndexOf(s, '.');
    if k == |s| then AtomRun(s) else AtomRun(s[..k]) && DotAtom(s[k + 1..])
  }

  predicate Octets(s: string, n: nat)
    decreases n
  {
    var k := IndexOf(s, '.');
    if n <= 1 then Octet(s) else k < |s| && Octet(s[..k]) && Octets(s[k + 1..], n - 1)
  }

  predicate AddressLiteral(s: string) {
    |s| >= 2 && s[0] == '[' && s[|s| - 1] == ']' && Octets(s[1..|s| - 1], 4)
  }

  predicate Labels(s: string)
    decreases |s|
  {
    var k := IndexOf(s, '.');
    k < |s| && LabelRun(s[..k]) && (k + 1 == |s| || Labels(s[k + 1..]))
  }

  predicate Host(s: string) {
    var k := LastIndexOf(s, '.') + 1;
    0 < k < |s| && Labels(s[..k]) && TopLabel(s[k..])
  }

  predicate Domain(s: string) {
    AddressLiteral(s) || Host(s)
  }

  predicate LocalPart(s: string) {
    DotAtom(s) || Quoted(s)
  }

  predicate Email(s: string) {
    var i := LastIndexOf(s, '@');
    0 <= i && LocalPart(s[..i]) && Domain(s[i + 1..])
  }

  /**
   * `checkEmailValidation`: the input is lower-cased, then trimmed, then tested; it is valid
   * exactly when the regular expression matches the result.
   */
  function CheckEmailValidation(email: string): (valid: bool)
    ensures valid <==> EmailRe(Trim(ToLower(email)))
  {
    EmailAgrees(Trim(ToLower(email)));
    Email(Trim(ToLower(email)))
  }

  // ---------------------------------------------------------------------------
  // The two agree

  /** A split point before which c does not occur is the first occurrence of c. */
  lemma FirstOccurrence(s: string, c: char, k: nat)
    requires k < |s| && s[k] == c
    requires forall i :: 0 <= i < k ==> s[i] != c
    ensures IndexOf(s, c) == k
  {
  }

  /** A run of atom characters has no dot, so a matched A+ ends at the first dot. */
  lemma AtomRunFirstDot(s: string, m: nat)
    requires m < |s| && s[m] == '.' && AtomRun(s[..m])
    ensures IndexOf(s, '.') == m
  {
    forall i | 0 <= i < m ensures s[i] != '.' { assert AtomChar(s[..m][i]); }
    FirstOccurrence(s, '.', m);
  }

  /** A matched A+(\.A+)* that has a dot splits at its first dot. */
  lemma DotAtomReSplit(s: string)
    requires DotAtomRe(s) && IndexOf(s, '.') < |s|
    ensures AtomRun(s[..IndexOf(s, '.')]) && DotAtomRe(s[IndexOf(s, '.') + 1..])
  {
    assert !AtomRun(s) by { assert s[IndexOf(s, '.')] == '.'; }
    var m :| 0 < m < |s| && s[m] == '.' && AtomRun(s[..m]) && DotAtomRe(s[m + 1..]);
    AtomRunFirstDot(s, m);
  }

  lemma DotAtomReJoin(s: string, k: nat)
    requires k < |s| && s[k] == '.' && AtomRun(s[..k]) && DotAtomRe(s[k + 1..])
    ensures DotAtomRe(s)
  {
    assert 0 < k by { assert |s[..k]| > 0; }
  }

  /** A matched A+(\.A+)* without a dot is a single run. */
  lemma DotAtomReWhole(s: string)
    requires DotAtomRe(s) && IndexOf(s, '.') == |s|
    ensures AtomRun(s)
  {
    if !AtomRun(s) {
      assert false;
    }
  }

  lemma {:induction false} DotAtomReAccepted(s: string)
    requires DotAtomRe(s)
    ensures DotAtom(s)
    decreases |s|
  {
    var k := IndexOf(s, '.');
    if k < |s| {
      DotAtomReSplit(s);
      DotAtomReAccepted(s[k + 1..]);
    } else {
      DotAtomReWhole(s);
    }
  }

  lemma {:induction false} DotAtomMatched(s: string)
    requires DotAtom(s)
    ensures DotAtomRe(s)
    decreases |s|
  {
    var k := IndexOf(s, '.');
    if k < |s| {
      DotAtomMatched(s[k + 1..]);
      DotAtomReJoin(s, k);
    }
  }

  lemma DotAtomAgrees(s: string)
    ensures DotAtomRe(s) <==> DotAtom(s)
  {
    if DotAtomRe(s) {
      DotAtomReAccepted(s);
    }
    if DotAtom(s) {
      DotAtomMatched(s);
    }
  }

  /** An octet has no dot, so a matched D{1,3} ends at the first dot. */
  lemma OctetFirstDot(s: string, m: nat)
    requires m < |s| && s[m] == '.' && Octet(s[..m])
    ensures IndexOf(s, '.') == m
  {
    forall i | 0 <= i < m ensures s[i] != '.' { assert IsDigit(s[..m][i]); }
    FirstOccurrence(s, '.', m);
  }

  /** n > 1 matched octets split at the first dot. */
  lemma OctetsReSplit(s: string, n: nat)
    requires n > 1 && OctetsRe(s, n)
    ensures IndexOf(s, '.') < |s|
    ensures Octet(s[..IndexOf(s, '.')]) && OctetsRe(s[IndexOf(s, '.') + 1..], n - 1)
  {
    var m :| 0 < m < |s| && s[m] == '.' && Octet(s[..m]) && OctetsRe(s[m + 1..], n - 1);
    OctetFirstDot(s, m);
  }

  lemma OctetsReJoin(s: string, n: nat, k: nat)
    requires n > 1 && k < |s| && s[k] == '.' && Octet(s[..k]) && OctetsRe(s[k + 1..], n - 1)
    ensures OctetsRe(s, n)
  {
    assert 0 < k by { assert |s[..k]| > 0; }
  }

  lemma {:induction false} OctetsReAccepted(s: string, n: nat)
    requires OctetsRe(s, n)
    ensures Octets(s, n)
    decreases n
  {
    if n > 1 {
      OctetsReSplit(s, n);
      OctetsReAccepted(s[IndexOf(s, '.') + 1..], n - 1);
    }
  }

  lemma {:induction false} OctetsMatched(s: string, n: nat)
    requires Octets(s, n)
    ensures OctetsRe(s, n)
    decreases n
  {
    if n > 1 {
      var k := IndexOf(s, '.');
      OctetsMatched(s[k + 1..], n - 1);
      OctetsReJoin(s, n, k);
    }
  }

  lemma OctetsAgree(s: string, n: nat)
    ensures OctetsRe(s, n) <==> Octets(s, n)
  {
    if OctetsRe(s, n) {
      OctetsReAccepted(s, n);
    }
    if Octets(s, n) {
      OctetsMatched(s, n);
    }
  }

  /** A matched ([a-zA-Z\-0-9]+\.)+ splits at its first dot. */
  lemma LabelsReSplit(s: string)
    requires LabelsRe(s)
    ensures var k := IndexOf(s, '.');
      k < |s| && LabelRun(s[..k]) && (k + 1 == |s| || LabelsRe(s[k + 1..]))
  {
    var m :| 0 < m < |s| && s[m] == '.' && LabelRun(s[..m]) && (m + 1 == |s| || LabelsRe(s[m + 1..]));
    forall i | 0 <= i < m ensures s[i] != '.' { assert LabelChar(s[..m][i]); }
    FirstOccurrence(s, '.', m);
  }

  lemma LabelsReJoin(s: string, k: nat)
    requires k < |s| && s[k] == '.' && LabelRun(s[..k]) && (k + 1 == |s| || LabelsRe(s[k + 1..]))
    ensures LabelsRe(s)
  {
    assert 0 < k by { assert |s[..k]| > 0; }
  }

  lemma {:induction false} LabelsReAccepted(s: string)
    requires LabelsRe(s)
    ensures Labels(s)
    decreases |s|
  {
    var k := IndexOf(s, '.');
    LabelsReSplit(s);
    if k + 1 < |s| {
      LabelsReAccepted(s[k + 1..]);
    }
  }

  lemma {:induction false} LabelsMatched(s: string)
    requires Labels(s)
    ensures LabelsRe(s)
    decreases |s|
  {
    var k := IndexOf(s, '.');
    if k + 1 < |s| {
      LabelsMatched(s[k + 1..]);
    }
    LabelsReJoin(s, k);
  }

  lemma LabelsAgree(s: string)
    ensures LabelsRe(s) <==> Labels(s)
  {
    if LabelsRe(s) {
      LabelsReAccepted(s);
    }
    if Labels(s) {
      LabelsMatched(s);
    }
  }

  /** The last occurrence of c is the one after which c does not occur. */
  lemma LastOccurrence(s: string, c: char, k: nat)
    requires k < |s| && s[k] == c
    requires forall i :: k < i < |s| ==> s[i] != c
    ensures LastIndexOf(s, c) == k
  {
  }

  /** A matched host splits after its last dot: the top-level label has none. */
  lemma HostReSplit(s: string)
    requires HostRe(s)
    ensures var k := LastIndexOf(s, '.') + 1;
      0 < k && LabelsRe(s[..k]) && TopLabel(s[k..])
  {
    var m :| 0 < m < |s| && s[m - 1] == '.' && LabelsRe(s[..m]) && TopLabel(s[m..]);
    forall i | m <= i < |s| ensures s[i] != '.' { assert IsLetter(s[m..][i - m]); }
    LastOccurrence(s, '.', m - 1);
  }

  lemma HostAgrees(s: string)
    ensures HostRe(s) <==> Host(s)
  {
    var k := LastIndexOf(s, '.') + 1;
    if HostRe(s) {
      HostReSplit(s);
      LabelsAgree(s[..k]);
    }
    if Host(s) {
      LabelsAgree(s[..k]);
      assert s[k - 1] == '.';
    }
  }

  /** A character that can occur in a matched domain. */
  predicate DomainChar(c: char) {
    LabelChar(c) || c == '.' || c == '[' || c == ']'
  }

  lemma {:induction false} OctetsChars(s: string, n: nat)
    requires Octets(s, n)
    ensures forall i :: 0 <= i < |s| ==> DomainChar(s[i])
    decreases n
  {
    var k := IndexOf(s, '.');
    if n > 1 {
      OctetsChars(s[k + 1..], n - 1);
      forall i | 0 <= i < |s| ensures DomainChar(s[i]) {
        if i < k { assert s[i] == s[..k][i]; }
        else if i > k { assert s[i] == s[k + 1..][i - k - 1]; }
      }
    }
  }

  lemma {:induction false} LabelsChars(s: string)
    requires Labels(s)
    ensures forall i :: 0 <= i < |s| ==> DomainChar(s[i])
    decreases |s|
  {
    var k := IndexOf(s, '.');
    if k + 1 < |s| {
      LabelsChars(s[k + 1..]);
    }
    forall i | 0 <= i < |s| ensures DomainChar(s[i]) {
      if i < k { assert s[i] == s[..k][i]; }
      else if i > k { assert s[i] == s[k + 1..][i - k - 1]; }
    }
  }

  /** No '@' occurs in a matched domain, so the split of an address is at its last '@'. */
  lemma DomainHasNoAt(s: string)
    requires Domain(s)
    ensures forall i :: 0 <= i < |s| ==> s[i] != '@'
  {
    if AddressLiteral(s) {
      var inner := s[1..|s| - 1];
      OctetsChars(inner, 4);
      forall i | 0 <= i < |s| ensures DomainChar(s[i]) {
        if 0 < i < |s| - 1 { assert s[i] == inner[i - 1]; }
      }
    } else {
      var k := LastIndexOf(s, '.') + 1;
      LabelsChars(s[..k]);
      forall i | 0 <= i < |s| ensures DomainChar(s[i]) {
        if i < k { assert s[i] == s[..k][i]; }
        else { assert s[i] == s[k..][i - k]; }
      }
    }
  }

  lemma DomainAgrees(s: string)
    ensures DomainRe(s) <==> Domain(s)
  {
    HostAgrees(s);
    if |s| >= 2 {
      OctetsAgree(s[1..|s| - 1], 4);
    }
  }

  lemma DomainReHasNoAt(s: string)
    requires DomainRe(s)
    ensures forall i :: 0 <= i < |s| ==> s[i] != '@'
  {
    DomainAgrees(s);
    DomainHasNoAt(s);
  }

  /** An '@' followed by a matched domain is the last '@', since the domain has none. */
  lemma AtBeforeDomain(s: string, i: nat)
    requires i < |s| && s[i] == '@' && DomainRe(s[i + 1..])
    ensures LastIndexOf(s, '@') == i
  {
    var d := s[i + 1..];
    DomainReHasNoAt(d);
    forall j | i < j < |s| ensures s[j] != '@' { assert s[j] == d[j - i - 1]; }
    LastOccurrence(s, '@', i);
  }

  lemma LocalAgrees(s: string)
    ensures LocalRe(s) <==> LocalPart(s)
  {
    DotAtomAgrees(s);
  }

  /** The recognizer accepts s once its last '@' splits it into a local part and a domain. */
  lemma EmailAt(s: string, i: nat)
    requires i < |s| && LastIndexOf(s, '@') == i
    requires LocalPart(s[..i])
    requires Domain(s[i + 1..])
    ensures Email(s)
  {
  }

  lemma EmailReAccepted(s: string)
    requires EmailRe(s)
    ensures Email(s)
  {
    var i :| 0 <= i < |s| && s[i] == '@' && LocalRe(s[..i]) && DomainRe(s[i + 1..]);
    AtBeforeDomain(s, i);
    LocalAgrees(s[..i]);
    DomainAgrees(s[i + 1..]);
    EmailAt(s, i);
  }

  /** The pattern matches s when some '@' splits it into a matched local part and domain. */
  lemma EmailReAt(s: string, k: nat)
    requires k < |s| && s[k] == '@' && LocalRe(s[..k]) && DomainRe(s[k + 1..])
    ensures EmailRe(s)
  {
  }

  lemma EmailMatched(s: string)
    requires Email(s)
    ensures EmailRe(s)
  {
    var k := LastIndexOf(s, '@');
    assert 0 <= k && LocalPart(s[..k]) && Domain(s[k + 1..]);
    LocalAgrees(s[..k]);
    DomainAgrees(s[k + 1..]);
    EmailReAt(s, k);
  }

  /** The recognizer accepts exactly the strings the regular expression matches. */
  lemma EmailAgrees(s: string)
    ensures EmailRe(s) <==> Email(s)
  {
    if EmailRe(s) {
      EmailReAccepted(s);
    }
    if Email(s) {
      EmailMatched(s);
    }
  }

  /** Normalization lowers the case and trims surrounding white space. */
  lemma NormalizeExample()
    ensures Trim(ToLower(" A@b.co")) == "a@b.co"
  {
    assert ToLower(" A@b.co") == " a@b.co";
    assert TrimStart(" a@b.co") == "a@b.co";
    assert TrimEnd("a@b.co") == "a@b.co";
  }

  /** "b." followed by a top-level label of two letters is a host. */
  lemma ShortHost(top: string)
    requires |top| == 2 && TopLabel(top)
    ensures Host("b." + top)
  {
    var d := "b." + top;
    assert d[1] == '.';
    forall i | 1 < i < |d| ensures d[i] != '.' { assert IsLetter(top[i - 2]); }
    LastOccurrence(d, '.', 1);
    assert d[..2] == "b.";
    assert IndexOf("b.", '.') == 1;
    assert Labels("b.");
    assert d[2..] == top;
  }

  /** "a@b." followed by a top-level label of two letters is an address. */
  lemma AcceptsShortAddress(top: string)
    requires |top| == 2 && TopLabel(top)
    ensures Email("a@b." + top)
  {
    var s := "a@b." + top;
    assert s[1] == '@';
    forall i | 1 < i < |s| ensures s[i] != '@' {
      if i > 3 { assert IsLetter(top[i - 4]); }
    }
    LastOccurrence(s, '@', 1);
    assert s[..1] == "a";
    assert IndexOf("a", '.') == 1;
    assert LocalPart(s[..1]);
    assert s[2..] == "b." + top;
    ShortHost(top);
    EmailAt(s, 1);
  }

  /** An address with a two-letter top-level label is accepted after normalization. */
  lemma AcceptExample()
    ensures CheckEmailValidation(" A@b.co")
  {
    NormalizeExample();
    assert TopLabel("co");
    AcceptsShortAddress("co");
    assert "a@b." + "co" == "a@b.co";
  }

  /** The Kelvin sign lowers to 'k', so a top-level label written with it is accepted. */
  lemma KelvinExample()
    ensures CheckEmailValidation("a@b.\U{212A}\U{212A}")
  {
    var e := "a@b.\U{212A}\U{212A}";
    assert ToLower(e) == "a@b.kk";
    assert TrimStart("a@b.kk") == "a@b.kk";
    assert TrimEnd("a@b.kk") == "a@b.kk";
    assert TopLabel("kk");
    AcceptsShortAddress("kk");
    assert "a@b." + "kk" == "a@b.kk";
  }

  /** A one-letter top-level label is rejected. */
  lemma RejectExample()
    ensures !CheckEmailValidation("a@b.c")
  {
    var t := "a@b.c";
    assert ToLower(t) == t && TrimStart(t) == t && TrimEnd(t) == t;
    assert t[1] == '@';
    assert forall i :: 1 < i < |t| ==> t[i] != '@';
    assert LastIndexOf(t, '@') == 1;
    var e := t[2..];
    assert e == "b.c";
    assert e[1] == '.';
    assert LastIndexOf(e, '.') == 1;
    assert !TopLabel(e[2..]);
    assert !Domain(e);
  }
}
