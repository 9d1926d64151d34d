/** The output file names the GUI chooses for the two PDF exports: the exam date
    and session are sanitised, joined into a prefix, and the prefix (when there
    is one) is put in front of the fixed report names. */
module ExportNames {

  /** The characters Python's `str.isspace` accepts, which `str.strip()` removes. */
  predicate IsSpace(c: char)
  {
    c == ' ' || '\t' <= c <= '\r' || '\U{1c}' <= c <= '\U{1f}' || c == '\U{85}' || c == '\U{a0}'
    || c == '\U{1680}' || '\U{2000}' <= c <= '\U{200a}' || c == '\U{2028}' || c == '\U{2029}'
    || c == '\U{202f}' || c == '\U{205f}' || c == '\U{3000}'
  }

  /** Leading whitespace removed: r is the suffix of s after the spaces. */
  function LStrip(s: string): (r: string)
    ensures |r| <= |s| && r == s[|s| - |r|..]
    ensures forall i :: 0 <= i < |s| - |r| ==> IsSpace(s[i])
    ensures r == [] || !IsSpace(r[0])
  {
    if s != [] && IsSpace(s[0]) then LStrip(s[1..]) else s
  }

  /** Trailing whitespace removed: r is the prefix of s before the spaces. */
  function RStrip(s: string): (r: string)
    ensures |r| <= |s| && r == s[..|r|]
    ensures forall i :: |r| <= i < |s| ==> IsSpace(s[i])
    ensures r == [] || !IsSpace(r[|r| - 1])
  {
    if s != [] && IsSpace(s[|s| - 1]) then RStrip(s[..|s| - 1]) else s
  }

  /** Python's `str.strip()`. */
  function Strip(s: string): string
  {
    RStrip(LStrip(s))
  }

  /** `str.replace(a, b)` for one-character a and b. */
  function ReplaceChar(s: string, a: char, b: char): string
  {
    seq(|s|, i requires 0 <= i < |s| => if s[i] == a then b else s[i])
  }

  /** The characters of the class `[A-Za-z0-9_\-]`. */
  predicate Allowed(c: char)
  {
    'A' <= c <= 'Z' || 'a' <= c <= 'z' || '0' <= c <= '9' || c == '_' || c == '-'
  }

  /** `re.sub(r"[^A-Za-z0-9_\-]", '_', s)`. */
  function ReplaceDisallowed(s: string): string
  {
    seq(|s|, i requires 0 <= i < |s| => if Allowed(s[i]) then s[i] else '_')
  }

  /** The nested `_sanitize` helper of `run_allocation`. */
  function Sanitize(s: string): (r: string)
    ensures |r| <= |s|
    ensures r == "" <==> Strip(s) == ""
  {
    if s == "" then ""
    else ReplaceDisallowed(ReplaceChar(ReplaceChar(ReplaceChar(Strip(s), ' ', '_'), '/', '-'), '\\', '-'))
  }

  /** What each stripped character becomes, stated on its own. */
  function SafeChar(c: char): char
  {
    if c == '/' || c == '\\' then '-'
    else if Allowed(c) then c
    else '_'
  }

  /** After stripping, every character is replaced one for one: slashes and
      backslashes by '-', allowed characters by themselves, everything else
      (spaces included) by '_'. */
  lemma SanitizeCharwise(s: string)
    ensures |Sanitize(s)| == |Strip(s)|
    ensures forall i :: 0 <= i < |Sanitize(s)| ==> Sanitize(s)[i] == SafeChar(Strip(s)[i])
    ensures forall i :: 0 <= i < |Sanitize(s)| && Strip(s)[i] == ' ' ==> Sanitize(s)[i] == '_'
  {
    if s == "" {
      assert Strip(s) == "";
    }
  }

  /** The output only holds characters of `[A-Za-z0-9_-]`, and the empty
      string is returned unchanged. */
  lemma SanitizeSafe(s: string)
    ensures AllAllowed(Sanitize(s))
    ensures Sanitize("") == ""
  {
    SanitizeCharwise(s);
  }

  lemma StripNoSpace(s: string)
    requires forall i :: 0 <= i < |s| ==> !IsSpace(s[i])
    ensures Strip(s) == s
  {
  }

  /** Sanitising is idempotent. */
  lemma SanitizeIdempotent(s: string)
    ensures Sanitize(Sanitize(s)) == Sanitize(s)
  {
    var t := Sanitize(s);
    SanitizeSafe(s);
    if t != "" {
      StripNoSpace(t);
      SanitizeCharwise(t);
      assert Sanitize(t) == t;
    }
  }

  /** The date/session prefix of the export file names. */
  function Prefix(date: string, session: string): (r: string)
    ensures |r| <= |date| + |session| + 1
  {
    JoinParts(Sanitize(date), Sanitize(session))
  }

  /** "date_session", or whichever part is non-empty, or "". */
  function JoinParts(datePart: string, sessionPart: string): (r: string)
    ensures r == "" <==> datePart == "" && sessionPart == ""
    ensures datePart != "" ==> |datePart| <= |r| && r[..|datePart|] == datePart
  {
    if datePart != "" && sessionPart != "" then datePart + "_" + sessionPart
    else if datePart != "" then datePart
    else if sessionPart != "" then sessionPart
    else ""
  }

  function SeatingFileName(prefix: string): string
  {
    (if prefix != "" then prefix + "_" else "") + "Seating_Plans.pdf"
  }

  function MasterFileName(prefix: string): string
  {
    (if prefix != "" then prefix + "_" else "") + "Master_Seating_Plan.pdf"
  }

  ghost predicate AllAllowed(s: string)
  {
    forall i :: 0 <= i < |s| ==> Allowed(s[i])
  }

  lemma JoinPartsShape(d: string, s: string)
    requires AllAllowed(d) && AllAllowed(s)
    ensures JoinParts(d, s) == "" <==> d == "" && s == ""
    ensures AllAllowed(JoinParts(d, s))
    ensures d != "" ==> JoinParts(d, s)[..|d|] == d
    ensures d != "" && s != "" ==> JoinParts(d, s) == d + "_" + s
    ensures d != "" && s == "" ==> JoinParts(d, s) == d
    ensures d == "" ==> JoinParts(d, s) == s
    ensures |JoinParts(d, s)| == |d| + |s| + (if d != "" && s != "" then 1 else 0)
  {
    var p := JoinParts(d, s);
    if d != "" && s != "" {
      assert p == d + "_" + s;
      forall i | 0 <= i < |p| ensures Allowed(p[i]) {
        if i < |d| {
          assert p[i] == d[i];
        } else if i > |d| {
          assert p[i] == s[i - |d| - 1];
        }
      }
    }
  }

  /** The prefix is empty exactly when both sanitised parts are, is made of
      allowed characters only, and is "date_session" of the sanitised parts,
      or whichever of them is non-empty. */
  lemma PrefixShape(date: string, session: string)
    ensures Prefix(date, session) == "" <==> Sanitize(date) == "" && Sanitize(session) == ""
    ensures AllAllowed(Prefix(date, session))
    ensures Sanitize(date) != "" ==> Prefix(date, session)[..|Sanitize(date)|] == Sanitize(date)
    ensures Sanitize(date) != "" && Sanitize(session) != "" ==>
              Prefix(date, session) == Sanitize(date) + "_" + Sanitize(session)
    ensures Sanitize(date) != "" && Sanitize(session) == "" ==> Prefix(date, session) == Sanitize(date)
    ensures Sanitize(date) == "" ==> Prefix(date, session) == Sanitize(session)
    ensures |Prefix(date, session)| ==
              |Sanitize(date)| + |Sanitize(session)| + (if Sanitize(date) != "" && Sanitize(session) != "" then 1 else 0)
  {
    SanitizeSafe(date);
    SanitizeSafe(session);
    JoinPartsShape(Sanitize(date), Sanitize(session));
  }

  lemma FileNameSafe(p: string, name: string)
    requires AllAllowed(p)
    requires forall i :: 0 <= i < |name| ==> Allowed(name[i]) || name[i] == '.'
    ensures var f := (if p != "" then p + "_" else "") + name;
            forall i :: 0 <= i < |f| ==> Allowed(f[i]) || f[i] == '.'
  {
    var f := (if p != "" then p + "_" else "") + name;
    forall i | 0 <= i < |f| ensures Allowed(f[i]) || f[i] == '.' {
      if p != "" {
        if i < |p| {
          assert f[i] == p[i];
        } else if i > |p| {
          assert f[i] == name[i - |p| - 1];
        }
      } else {
        assert f[i] == name[i];
      }
    }
  }

  /** An export file name is the prefix and '_' in front of the report name
      when there is a prefix, and the bare report name otherwise; for a prefix
      made of allowed characters (as every Prefix is) it holds only characters
      of `[A-Za-z0-9_.-]`. */
  lemma FileNamesShape(p: string)
    requires AllAllowed(p)
    ensures p == "" ==> SeatingFileName(p) == "Seating_Plans.pdf" && MasterFileName(p) == "Master_Seating_Plan.pdf"
    ensures p != "" ==> SeatingFileName(p) == p + "_Seating_Plans.pdf" && MasterFileName(p) == p + "_Master_Seating_Plan.pdf"
    ensures forall i :: 0 <= i < |SeatingFileName(p)| ==> Allowed(SeatingFileName(p)[i]) || SeatingFileName(p)[i] == '.'
    ensures forall i :: 0 <= i < |MasterFileName(p)| ==> Allowed(MasterFileName(p)[i]) || MasterFileName(p)[i] == '.'
  {
    FileNameSafe(p, "Seating_Plans.pdf");
    FileNameSafe(p, "Master_Seating_Plan.pdf");
    FileNamesForm(p);
  }

  lemma FileNamesForm(p: string)
    ensures p != "" ==> SeatingFileName(p) == p + "_Seating_Plans.pdf" && MasterFileName(p) == p + "_Master_Seating_Plan.pdf"
  {
    if p != "" {
      JoinAfter(p, "Seating_Plans.pdf", "_Seating_Plans.pdf");
      JoinAfter(p, "Master_Seating_Plan.pdf", "_Master_Seating_Plan.pdf");
    }
  }

  lemma JoinAfter(p: string, name: string, joined: string)
    requires joined == "_" + name
    ensures (p + "_") + name == p + joined
  {
  }
}
