/** The /address and /domain command handlers of main.py, without the chat
    transport: each takes the full message text and the database and returns
    the reply text that would be sent. */
module Commands {
  import opened DomainNormalizer
  import opened AssociationStore

  datatype Option<T> = None | Some(value: T)

  /** Python's str.isspace on one character: the characters str.split()
      and str.strip() treat as whitespace. */
  predicate IsSpace(c: char) {
    || c == ' ' || '\t' <= c <= '\r' || '\U{1C}' <= c <= '\U{1F}'
    || c == '\U{85}' || c == '\U{A0}' || c == '\U{1680}' || '\U{2000}' <= c <= '\U{200A}'
    || c == '\U{2028}' || c == '\U{2029}' || c == '\U{202F}' || c == '\U{205F}' || c == '\U{3000}'
  }

  /** str.lstrip() */
  function TrimStart(s: string): string
    decreases |s|
  {
    if s != [] && IsSpace(s[0]) then TrimStart(s[1..]) else s
  }

  /** str.rstrip() */
  function TrimEnd(s: string): string
    decreases |s|
  {
    if s != [] && IsSpace(s[|s| - 1]) then TrimEnd(s[..|s| - 1]) else s
  }

  /** str.strip() */
  function Strip(s: string): string {
    TrimEnd(TrimStart(s))
  }

  /** Drops the leading run of non-whitespace characters. */
  function SkipField(s: string): string
    decreases |s|
  {
    if s != [] && !IsSpace(s[0]) then SkipField(s[1..]) else s
  }

  /** text.split(maxsplit=1)[1]: after the first whitespace-separated field
      and the whitespace that follows it, the rest of the text as it stands;
      None where the list has no second element and Python raises IndexError. */
  function SecondField(text: string): Option<string> {
    var rest := TrimStart(SkipField(TrimStart(text)));
    if rest == [] then None else Some(rest)
  }

  /** message.text.split(maxsplit=1)[1].strip() */
  function CommandArgument(text: string): Option<string> {
    match SecondField(text)
    case None => None
    case Some(field) => Some(Strip(field))
  }

  /** sep.join(xs) */
  function JoinWith(sep: string, xs: seq<string>): string
    decreases |xs|
  {
    if xs == [] then ""
    else if |xs| == 1 then xs[0]
    else xs[0] + sep + JoinWith(sep, xs[1..])
  }

  const Warning: string := "\U{26A0}\U{FE0F} WARNING: The "
  const Clear: string := "\U{2705} The "

  const AddressUsage: string := "Please provide an address to check. Usage: /address <address>"
  const DomainUsage: string := "Please provide a domain to check. Usage: /domain <domain>"

  /** The reply both handlers build by concatenation: entity is "address" or
      "domain", others is what the join lists ("domains" or "addresses"). */
  function Report(entity: string, others: string, subject: string, flagged: bool, linked: seq<string>): string {
    if flagged then
      Warning + entity + " " + subject + " is associated with scams.\n"
      + if linked != [] then "Associated scam " + others + ": " + JoinWith(", ", linked)
        else "No specific " + others + " are associated with this " + entity + " in our database."
    else Clear + entity + " " + subject + " is not found in our scam database."
  }

  function AddressReport(address: string, flagged: bool, domains: seq<string>): string {
    Report("address", "domains", address, flagged, domains)
  }

  function DomainReport(domain: string, flagged: bool, addresses: seq<string>): string {
    Report("domain", "addresses", domain, flagged, addresses)
  }

  // ---------------------------------------------------------------------
  // Properties of argument extraction

  ghost predicate AllSpace(s: string) {
    forall i :: 0 <= i < |s| ==> IsSpace(s[i])
  }

  /** The text has a second whitespace-separated field: some non-space
      character, later a space, later again a non-space character. */
  ghost predicate HasSecondField(text: string) {
    exists i, j, k :: 0 <= i < j < k < |text| && !IsSpace(text[i]) && IsSpace(text[j]) && !IsSpace(text[k])
  }

  lemma {:induction false} TrimStartFacts(s: string)
    ensures |TrimStart(s)| <= |s|
    ensures TrimStart(s) == s[|s| - |TrimStart(s)|..]
    ensures forall i :: 0 <= i < |s| - |TrimStart(s)| ==> IsSpace(s[i])
    ensures TrimStart(s) != [] ==> !IsSpace(TrimStart(s)[0])
    decreases |s|
  {
    if s != [] && IsSpace(s[0]) {
      TrimStartFacts(s[1..]);
      forall i | 0 < i < |s| - |TrimStart(s)| ensures IsSpace(s[i]) {
        assert s[i] == s[1..][i - 1];
      }
    }
  }

  lemma {:induction false} SkipFieldFacts(s: string)
    ensures |SkipField(s)| <= |s|
    ensures SkipField(s) == s[|s| - |SkipField(s)|..]
    ensures forall i :: 0 <= i < |s| - |SkipField(s)| ==> !IsSpace(s[i])
    ensures SkipField(s) != [] ==> IsSpace(SkipField(s)[0])
    decreases |s|
  {
    if s != [] && !IsSpace(s[0]) {
      SkipFieldFacts(s[1..]);
      forall i | 0 < i < |s| - |SkipField(s)| ensures !IsSpace(s[i]) {
        assert s[i] == s[1..][i - 1];
      }
    }
  }

  lemma {:induction false} TrimEndFacts(s: string)
    ensures |TrimEnd(s)| <= |s|
    ensures TrimEnd(s) == s[..|TrimEnd(s)|]
    ensures forall i :: |TrimEnd(s)| <= i < |s| ==> IsSpace(s[i])
    ensures TrimEnd(s) != [] ==> !IsSpace(TrimEnd(s)[|TrimEnd(s)| - 1])
    decreases |s|
  {
    if s != [] && IsSpace(s[|s| - 1]) {
      var init := s[..|s| - 1];
      TrimEndFacts(init);
      forall i | |TrimEnd(s)| <= i < |s| - 1 ensures IsSpace(s[i]) {
        assert s[i] == init[i];
      }
    }
  }

  /** lstrip applied to the part of the text from off onwards. */
  lemma TrimStartFrom(text: string, off: nat) returns (n: nat)
    requires off <= |text|
    ensures off + n <= |text|
    ensures TrimStart(text[off..]) == text[off + n..]
    ensures forall i :: off <= i < off + n ==> IsSpace(text[i])
    ensures off + n < |text| ==> !IsSpace(text[off + n])
  {
    var s := text[off..];
    TrimStartFacts(s);
    n := |s| - |TrimStart(s)|;
    forall i | off <= i < off + n ensures IsSpace(text[i]) {
      assert text[i] == s[i - off];
    }
    if off + n < |text| {
      assert text[off + n] == TrimStart(s)[0];
    }
  }

  /** The first-field skip applied to the part of the text from off onwards. */
  lemma SkipFieldFrom(text: string, off: nat) returns (n: nat)
    requires off <= |text|
    ensures off + n <= |text|
    ensures SkipField(text[off..]) == text[off + n..]
    ensures forall i :: off <= i < off + n ==> !IsSpace(text[i])
    ensures off + n < |text| ==> IsSpace(text[off + n])
  {
    var s := text[off..];
    SkipFieldFacts(s);
    n := |s| - |SkipField(s)|;
    forall i | off <= i < off + n ensures !IsSpace(text[i]) {
      assert text[i] == s[i - off];
    }
    if off + n < |text| {
      assert text[off + n] == SkipField(s)[0];
    }
  }

  /** Where the three stages of the split start within the text. */
  lemma SecondFieldOffsets(text: string) returns (a: nat, b: nat, c: nat)
    ensures a + b + c <= |text|
    ensures TrimStart(SkipField(TrimStart(text))) == text[a + b + c..]
    ensures forall i :: 0 <= i < a ==> IsSpace(text[i])
    ensures forall i :: a <= i < a + b ==> !IsSpace(text[i])
    ensures forall i :: a + b <= i < a + b + c ==> IsSpace(text[i])
    ensures a < |text| ==> !IsSpace(text[a])
    ensures a + b < |text| ==> IsSpace(text[a + b])
    ensures a + b + c < |text| ==> !IsSpace(text[a + b + c])
  {
    assert text[0..] == text;
    a := TrimStartFrom(text, 0);
    var t1 := TrimStart(text);
    assert t1 == text[a..];
    b := SkipFieldFrom(text, a);
    var t2 := SkipField(t1);
    assert t2 == text[a + b..];
    c := TrimStartFrom(text, a + b);
  }

  lemma PresentArgumentHasSecondField(text: string)
    requires SecondField(text).Some?
    ensures HasSecondField(text)
  {
    var a, b, c := SecondFieldOffsets(text);
    assert a + b + c < |text|;
    assert b > 0 && c > 0;
    assert !IsSpace(text[a]) && IsSpace(text[a + b]) && !IsSpace(text[a + b + c]);
  }

  lemma SecondFieldMakesArgument(text: string, i: nat, j: nat, k: nat)
    requires i < j < k < |text|
    requires !IsSpace(text[i]) && IsSpace(text[j]) && !IsSpace(text[k])
    ensures SecondField(text).Some?
  {
    var a, b, c := SecondFieldOffsets(text);
    assert a <= i;
    assert a + b <= j;
    assert a + b + c <= k;
  }

  /** split(maxsplit=1) yields a second element exactly when the text has a
      second whitespace-separated field; otherwise the handler's index raises
      IndexError and the usage prompt is sent. */
  lemma ArgumentPresentIffSecondField(text: string)
    ensures CommandArgument(text).Some? <==> HasSecondField(text)
  {
    if SecondField(text).Some? {
      PresentArgumentHasSecondField(text);
    }
    if HasSecondField(text) {
      var i, j, k :| 0 <= i < j < k < |text| && !IsSpace(text[i]) && IsSpace(text[j]) && !IsSpace(text[k]);
      SecondFieldMakesArgument(text, i, j, k);
    }
  }

  /** A present argument is non-empty, starts and ends with a non-space
      character, and is the part of the text after the command field, up to
      the trailing whitespace. */
  lemma ArgumentIsTrimmedTail(text: string)
    ensures CommandArgument(text).Some? ==>
      var arg := CommandArgument(text).value;
      && arg != []
      && !IsSpace(arg[0]) && !IsSpace(arg[|arg| - 1])
      && exists i :: OccursAt(arg, text, i) && AllSpace(text[i + |arg|..])
  {
    if SecondField(text).Some? {
      var a, b, c := SecondFieldOffsets(text);
      var i := a + b + c;
      var rest := text[i..];
      assert SecondField(text) == Some(rest);
      assert !IsSpace(rest[0]);
      assert TrimStart(rest) == rest;
      var arg := TrimEnd(rest);
      TrimEndFacts(rest);
      assert arg == CommandArgument(text).value;
      assert arg != [];
      assert arg[0] == rest[0];
      assert text[i..i + |arg|] == rest[..|arg|];
      assert OccursAt(arg, text, i);
      var tail := text[i + |arg|..];
      forall m | 0 <= m < |tail| ensures IsSpace(tail[m]) {
        assert tail[m] == rest[|arg| + m];
      }
    }
  }

  // ---------------------------------------------------------------------
  // Properties of the replies

  /** Every joined item is part of the joined text. */
  lemma {:induction false} JoinWithContains(sep: string, xs: seq<string>, x: string)
    requires x in xs
    ensures Occurs(x, JoinWith(sep, xs))
    decreases |xs|
  {
    var r := JoinWith(sep, xs);
    if |xs| == 1 {
      assert OccursAt(x, r, 0);
    } else if x == xs[0] {
      assert r[..|x|] == x;
      assert OccursAt(x, r, 0);
    } else {
      JoinWithContains(sep, xs[1..], x);
      var rest := JoinWith(sep, xs[1..]);
      var i :| OccursAt(x, rest, i);
      var off := |xs[0] + sep|;
      assert r == xs[0] + sep + rest;
      assert r[off + i..off + i + |x|] == rest[i..i + |x|];
      assert OccursAt(x, r, off + i);
    }
  }

  /** The opening "<sign> … The <entity> <subject>" of every non-usage reply. */
  lemma ReportHead(entity: string, others: string, subject: string, flagged: bool, linked: seq<string>)
    ensures var r := Report(entity, others, subject, flagged, linked);
      && r != []
      && r[0] == (if flagged then '\U{26A0}' else '\U{2705}')
      && OccursAt(subject, r, |(if flagged then Warning else Clear) + entity + " "|)
  {
    var r := Report(entity, others, subject, flagged, linked);
    var sign := if flagged then Warning else Clear;
    var head := sign + entity + " ";
    assert r == head + subject + r[|head| + |subject|..];
    assert r[|head|..|head| + |subject|] == subject;
    assert r[0] == sign[0];
  }

  /** A flagged reply with links names every linked item. */
  lemma ReportListsLinked(entity: string, others: string, subject: string, linked: seq<string>)
    requires linked != []
    ensures forall x | x in linked :: Occurs(x, Report(entity, others, subject, true, linked))
  {
    var r := Report(entity, others, subject, true, linked);
    var listing := JoinWith(", ", linked);
    var lead := Warning + entity + " " + subject + " is associated with scams.\n" + "Associated scam " + others + ": ";
    assert r == lead + listing;
    forall x | x in linked ensures Occurs(x, r) {
      JoinWithContains(", ", linked, x);
      var i :| OccursAt(x, listing, i);
      assert r[|lead| + i..|lead| + i + |x|] == listing[i..i + |x|];
      assert OccursAt(x, r, |lead| + i);
    }
  }

  /** A flagged reply without links ends by saying that none are associated. */
  lemma ReportWithoutLinks(entity: string, others: string, subject: string)
    ensures var r := Report(entity, others, subject, true, []);
      var tail := "No specific " + others + " are associated with this " + entity + " in our database.";
      OccursAt(tail, r, |r| - |tail|)
  {
    var r := Report(entity, others, subject, true, []);
    var tail := "No specific " + others + " are associated with this " + entity + " in our database.";
    assert r == Warning + entity + " " + subject + " is associated with scams.\n" + tail;
    assert r[|r| - |tail|..] == tail;
  }

  /** The reply is one of three messages: its first character tells a
      warning from a clear result, the checked key stands right after
      "The <entity> ", a warning with links names every linked item, and a
      warning without links says that none are associated. */
  lemma ReportShape(entity: string, others: string, subject: string, flagged: bool, linked: seq<string>)
    ensures var r := Report(entity, others, subject, flagged, linked);
      && r != []
      && (flagged <==> r[0] == '\U{26A0}')
      && (!flagged <==> r[0] == '\U{2705}')
      && OccursAt(subject, r, |(if flagged then Warning else Clear) + entity + " "|)
      && (flagged && linked != [] ==> forall x | x in linked :: Occurs(x, r))
      && (flagged && linked == [] ==>
            var tail := "No specific " + others + " are associated with this " + entity + " in our database.";
            OccursAt(tail, r, |r| - |tail|))
  {
    ReportHead(entity, others, subject, flagged, linked);
    if flagged && linked != [] {
      ReportListsLinked(entity, others, subject, linked);
    }
    if flagged && linked == [] {
      ReportWithoutLinks(entity, others, subject);
    }
  }

  // ---------------------------------------------------------------------
  // The handlers

  /** check_address_command: a usage prompt when the argument is missing;
      otherwise the trimmed argument is looked up verbatim. The ghost result
      records the key that was looked up, None when there was no lookup. */
  method AddressCommand(db: ScamDatabase, text: string) returns (reply: string, ghost looked: Option<string>)
    ensures looked == CommandArgument(text)
    ensures CommandArgument(text).None? ==> reply == AddressUsage
    ensures CommandArgument(text).Some? ==>
      var address := CommandArgument(text).value;
      var flagged := AddressExists(db.Contents(), address);
      reply == AddressReport(address, flagged, if flagged then DomainsOf(db.Contents(), address) else [])
  {
    var arg := CommandArgument(text);
    if arg.None? {
      return AddressUsage, None;
    }
    var address := arg.value;
    var flagged, domains := db.CheckAddress(address);
    reply := AddressReport(address, flagged, domains);
    looked := Some(address);
  }

  /** check_domain_command: the same, except that the argument is normalised
      first and the normalised key is what is looked up and echoed. */
  method DomainCommand(db: ScamDatabase, text: string) returns (reply: string, ghost looked: Option<string>)
    ensures looked == match CommandArgument(text)
                      case None => None
                      case Some(arg) => Some(NormalizeDomain(arg))
    ensures CommandArgument(text).None? ==> reply == DomainUsage
    ensures CommandArgument(text).Some? ==>
      var domain := NormalizeDomain(CommandArgument(text).value);
      var flagged := DomainExists(db.Contents(), domain);
      reply == DomainReport(domain, flagged, if flagged then AddressesOf(db.Contents(), domain) else [])
  {
    var arg := CommandArgument(text);
    if arg.None? {
      return DomainUsage, None;
    }
    var domain := NormalizeDomain(arg.value);
    var flagged, addresses := db.CheckDomain(domain);
    reply := DomainReport(domain, flagged, addresses);
    looked := Some(domain);
  }
}
