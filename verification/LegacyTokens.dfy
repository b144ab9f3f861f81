/** Recognising the descriptions of tokens made before the deterministic scheme. */
module LegacyTokens {
  import opened GoText

  const LEGACY_TOKEN_DESCRIPTION_PREFIX := "Token for "

  function ServiceTokenDescription(service: string, nodeName: string): string {
    "carbonio/" + service + "/" + nodeName
  }

  predicate IsLegacyServiceToken(description: string, legacyNames: seq<string>, hostnames: seq<string>) {
    var normalized := TrimPrefix(Join(Fields(description), " "), LEGACY_TOKEN_DESCRIPTION_PREFIX);
    match Cut(normalized, '/')
    case None => false
    case Some(cut) => cut.0 in legacyNames && AnyHostname(Fields(cut.1), hostnames)
  }

  predicate AnyHostname(names: seq<string>, hostnames: seq<string>) {
    exists i :: 0 <= i < |names| && TrimDot(names[i]) in hostnames
  }

  /** The words of a description without a leading "Token for" (which must be followed by more). */
  function Subject(words: seq<string>): seq<string> {
    if |words| >= 3 && words[0] == "Token" && words[1] == "for" then words[2..] else words
  }

  /** Word `k` is the first to hold a slash and splits as `name`/`first`. */
  ghost predicate SplitsAt(words: seq<string>, k: nat, name: string, first: string) {
    && k < |words|
    && (forall j :: 0 <= j < k ==> '/' !in words[j])
    && '/' !in name
    && words[k] == name + "/" + first
  }

  /** A word names a host that it spells out, or that it spells out with one final dot. */
  ghost predicate Spells(w: string, host: string) {
    w == host + "." || (w == host && w != "" && w[|w| - 1] != '.')
  }

  ghost predicate NamesHost(words: seq<string>, hostnames: seq<string>) {
    exists w, h :: w in words && w != "" && h in hostnames && Spells(w, h)
  }

  lemma TrimDotSpells(w: string, host: string)
    requires w != ""
    ensures TrimDot(w) == host <==> Spells(w, host)
  {
    if w[|w| - 1] == '.' {
      assert w == w[..|w| - 1] + ".";
      assert w == host + "." ==> w[..|w| - 1] == host;
    } else {
      assert (host + ".")[|host|] == '.';
    }
  }

  lemma WordNamesHost(words: seq<string>, w: string, hostnames: seq<string>)
    requires w in words && w != "" && TrimDot(w) in hostnames
    ensures NamesHost(words, hostnames)
  {
    TrimDotSpells(w, TrimDot(w));
  }

  lemma HostIsNamed(words: seq<string>, hostnames: seq<string>) returns (w: string)
    requires NamesHost(words, hostnames)
    ensures w in words && w != "" && TrimDot(w) in hostnames
  {
    var v, h :| v in words && v != "" && h in hostnames && Spells(v, h);
    TrimDotSpells(v, h);
    w := v;
  }

  /** The loop over words decides whether one of them names a host; empty ones in between make no difference. */
  lemma AnyHostnameDecides(names: seq<string>, words: seq<string>, hostnames: seq<string>)
    requires forall w :: w in names <==> w in words && w != ""
    ensures AnyHostname(names, hostnames) <==> NamesHost(words, hostnames)
  {
    if NamesHost(words, hostnames) {
      var w := HostIsNamed(words, hostnames);
      var i :| 0 <= i < |names| && names[i] == w;
    }
    if i :| 0 <= i < |names| && TrimDot(names[i]) in hostnames {
      assert names[i] in names;
      WordNamesHost(words, names[i], hostnames);
    }
  }

  /** The declarative reading: the text up to the first slash is a legacy name and a later word names this host. */
  ghost predicate NamesLegacyToken(words: seq<string>, legacyNames: seq<string>, hostnames: seq<string>) {
    exists k: nat, name, first :: SplitsAt(words, k, name, first)
      && Join(words[..k] + [name], " ") in legacyNames
      && NamesHost([first] + words[k + 1..], hostnames)
  }

  lemma {:induction false} JoinStart(w: string, words: seq<string>)
    requires NoSpace(w) && AreWords(words) && w + " " <= Join(words, " ")
    ensures |words| >= 2 && words[0] == w && Join(words, " ") == w + " " + Join(words[1..], " ")
  {
    var s := Join(words, " ");
    assert s[|w|] == ' ' && s[..|w|] == w;
    JoinCons(words[0], words[1..]);
    assert [words[0]] + words[1..] == words;
    assert s == words[0] + Tail(words[1..]);
    WordLengthIs(words[0], Tail(words[1..]));
    assert s == w + s[|w|..];
    WordLengthIs(w, s[|w|..]);
    assert s[..|w|] == words[0];
  }

  lemma PrefixTrimmed(words: seq<string>)
    requires AreWords(words)
    ensures TrimPrefix(Join(words, " "), LEGACY_TOKEN_DESCRIPTION_PREFIX) == Join(Subject(words), " ")
  {
    var s := Join(words, " ");
    assert LEGACY_TOKEN_DESCRIPTION_PREFIX == "Token" + " " + "for ";
    if |words| >= 3 && words[0] == "Token" && words[1] == "for" {
      assert words[1..][1..] == words[2..];
      assert Join(words[1..], " ") == "for" + " " + Join(words[2..], " ");
      assert s == LEGACY_TOKEN_DESCRIPTION_PREFIX + Join(words[2..], " ");
    } else if LEGACY_TOKEN_DESCRIPTION_PREFIX <= s {
      assert s[..6] == ("Token" + " " + "for ")[..6];
      JoinStart("Token", words);
      assert Join(words[1..], " ") == s[6..] && s[6..][..4] == "for" + " ";
      JoinStart("for", words[1..]);
      assert false;
    }
  }

  lemma {:induction false} CutJoined(words: seq<string>, k: nat, name: string, first: string)
    requires SplitsAt(words, k, name, first)
    ensures Cut(Join(words, " "), '/') == Some((Join(words[..k] + [name], " "), first + Tail(words[k + 1..])))
  {
    assert words == words[..k] + [words[k]] + words[k + 1..];
    JoinSplit(words[..k], name, first, words[k + 1..]);
    NoSlash(words[..k] + [name]);
    CutAt(Join(words[..k] + [name], " "), '/', first + Tail(words[k + 1..]));
  }

  /** Words, each followed by a space. */
  function Lead(ws: seq<string>): string { if ws == [] then "" else (ws[0] + " ") + Lead(ws[1..]) }

  lemma {:induction false} JoinLead(before: seq<string>, ws: seq<string>)
    requires ws != []
    ensures Join(before + ws, " ") == Lead(before) + Join(ws, " ")
  {
    if before == [] {
      assert before + ws == ws;
    } else {
      assert before + ws == [before[0]] + (before[1..] + ws);
      JoinCons(before[0], before[1..] + ws);
      JoinLead(before[1..], ws);
      Reassociate(before[0], Lead(before[1..]), Join(ws, " "));
    }
  }

  lemma Reassociate(a: string, b: string, c: string)
    ensures a + (" " + (b + c)) == (a + " ") + b + c
  {
  }

  lemma JoinSplit(before: seq<string>, name: string, first: string, after: seq<string>)
    ensures Join(before + [name + "/" + first] + after, " ")
         == Join(before + [name], " ") + "/" + (first + Tail(after))
  {
    var w := name + "/" + first;
    assert before + [w] + after == before + ([w] + after);
    JoinLead(before, [w] + after);
    JoinCons(w, after);
    JoinLead(before, [name]);
    Regroup(Lead(before), name, first, Tail(after));
  }

  lemma Regroup(a: string, b: string, c: string, d: string)
    ensures a + (b + "/" + c + d) == (a + b) + "/" + (c + d)
  {
  }

  lemma {:induction false} NoSlash(words: seq<string>)
    requires forall j :: 0 <= j < |words| ==> '/' !in words[j]
    ensures '/' !in Join(words, " ")
  {
    if |words| > 1 { NoSlash(words[1..]); }
  }

  lemma FieldsOfRest(first: string, rest: seq<string>)
    requires NoSpace(first) && AreWords(rest)
    ensures Fields(first + Tail(rest)) == (if first == "" then [] else [first]) + rest
  {
    FieldsTail(rest);
    if first == "" {
      assert first + Tail(rest) == Tail(rest);
    } else {
      FieldsWord(first, Tail(rest));
    }
  }

  lemma RestHasNoSpace(words: seq<string>, k: nat, name: string, first: string)
    requires AreWords(words) && SplitsAt(words, k, name, first)
    ensures NoSpace(first)
  {
    assert forall i :: 0 <= i < |first| ==> first[i] == words[k][|name| + 1 + i];
  }

  lemma RestDecided(first: string, rest: seq<string>, hostnames: seq<string>)
    requires NoSpace(first) && AreWords(rest)
    ensures AnyHostname(Fields(first + Tail(rest)), hostnames) <==> NamesHost([first] + rest, hostnames)
  {
    FieldsOfRest(first, rest);
    var names, words := (if first == "" then [] else [first]) + rest, [first] + rest;
    forall w ensures w in names <==> w in words && w != "" {
      assert w in rest ==> w != "";
    }
    AnyHostnameDecides(names, words, hostnames);
  }

  /** Cutting the joined words is the same as splitting the first word that holds a slash. */
  lemma DecidedAtSplit(words: seq<string>, k: nat, name: string, first: string,
                       legacyNames: seq<string>, hostnames: seq<string>)
    requires AreWords(words) && SplitsAt(words, k, name, first)
    ensures Cut(Join(words, " "), '/').Some?
    ensures var (service, names) := Cut(Join(words, " "), '/').value;
            && service == Join(words[..k] + [name], " ")
            && (AnyHostname(Fields(names), hostnames) <==> NamesHost([first] + words[k + 1..], hostnames))
  {
    CutJoined(words, k, name, first);
    RestHasNoSpace(words, k, name, first);
    RestDecided(first, words[k + 1..], hostnames);
  }

  lemma {:induction false} FirstSlash(words: seq<string>) returns (k: nat, name: string, first: string)
    requires exists j :: 0 <= j < |words| && '/' in words[j]
    ensures SplitsAt(words, k, name, first)
  {
    if '/' in words[0] {
      name := Before(words[0], '/');
      k, first := 0, words[0][|name| + 1..];
    } else {
      k, name, first := FirstSlash(words[1..]);
      k := k + 1;
    }
  }

  lemma SplitIsUnique(words: seq<string>, k: nat, name: string, first: string, k': nat, name': string, first': string)
    requires SplitsAt(words, k, name, first) && SplitsAt(words, k', name', first')
    ensures k == k' && name == name' && first == first'
  {
    assert words[k][|name|] == '/' && words[k'][|name'|] == '/';
    CutAt(name, '/', first);
    CutAt(name', '/', first');
  }

  /** With a known split, the declarative reading is about that split. */
  lemma ReadAtSplit(words: seq<string>, k: nat, name: string, first: string,
                    legacyNames: seq<string>, hostnames: seq<string>)
    requires SplitsAt(words, k, name, first)
    ensures NamesLegacyToken(words, legacyNames, hostnames)
       <==> Join(words[..k] + [name], " ") in legacyNames && NamesHost([first] + words[k + 1..], hostnames)
  {
    if NamesLegacyToken(words, legacyNames, hostnames) {
      var k': nat, name', first' :| SplitsAt(words, k', name', first')
        && Join(words[..k'] + [name'], " ") in legacyNames
        && NamesHost([first'] + words[k' + 1..], hostnames);
      SplitIsUnique(words, k, name, first, k', name', first');
    }
  }

  lemma NoSlashNoSplit(words: seq<string>, legacyNames: seq<string>, hostnames: seq<string>)
    requires forall j :: 0 <= j < |words| ==> '/' !in words[j]
    ensures !NamesLegacyToken(words, legacyNames, hostnames)
    ensures Cut(Join(words, " "), '/').None?
  {
    NoSlash(words);
    forall k: nat, name, first | k < |words| ensures words[k] != name + "/" + first {
      assert (name + "/" + first)[|name|] == '/';
    }
  }

  lemma JoinedMeetsDefinition(words: seq<string>, legacyNames: seq<string>, hostnames: seq<string>)
    requires AreWords(words)
    ensures var cut := Cut(Join(words, " "), '/');
            (cut.Some? && cut.value.0 in legacyNames && AnyHostname(Fields(cut.value.1), hostnames))
            <==> NamesLegacyToken(words, legacyNames, hostnames)
  {
    if exists j :: 0 <= j < |words| && '/' in words[j] {
      var k, name, first := FirstSlash(words);
      DecidedAtSplit(words, k, name, first, legacyNames, hostnames);
      ReadAtSplit(words, k, name, first, legacyNames, hostnames);
    } else {
      NoSlashNoSplit(words, legacyNames, hostnames);
    }
  }

  /** The recogniser decides exactly the declarative reading, which depends on the words alone. */
  lemma RecogniserMeetsDefinition(description: string, legacyNames: seq<string>, hostnames: seq<string>)
    ensures IsLegacyServiceToken(description, legacyNames, hostnames)
       <==> NamesLegacyToken(Subject(Fields(description)), legacyNames, hostnames)
  {
    PrefixTrimmed(Fields(description));
    JoinedMeetsDefinition(Subject(Fields(description)), legacyNames, hostnames);
  }

  /** A description of the old scripts, up to white space: [Token for] name/host host ... */
  ghost predicate ScriptWords(words: seq<string>, name: string, hosts: seq<string>) {
    && IsWord(name) && '/' !in name
    && hosts != [] && AreWords(hosts)
    && Subject(words) == [name + "/" + hosts[0]] + hosts[1..]
  }

  /** Such a description is matched exactly when its name is a legacy name and it lists this host. */
  lemma ScriptDescriptionsDecided(description: string, name: string, hosts: seq<string>,
                                  legacyNames: seq<string>, hostnames: seq<string>)
    requires ScriptWords(Fields(description), name, hosts)
    ensures IsLegacyServiceToken(description, legacyNames, hostnames)
       <==> name in legacyNames && NamesHost(hosts, hostnames)
  {
    var words := Subject(Fields(description));
    RecogniserMeetsDefinition(description, legacyNames, hostnames);
    ReadAtSplit(words, 0, name, hosts[0], legacyNames, hostnames);
    assert words[..0] + [name] == [name] && [hosts[0]] + words[1..] == hosts;
  }

  /** The layout of the shell scripts, `hostname -A` output included. */
  function BashDescription(name: string, hosts: seq<string>): string {
    "Token for\n    " + (name + "/" + Join(hosts, " ") + " ")
  }

  lemma FieldsNext(w: string, blank: string, text: string)
    requires IsWord(w) && blank != "" && (forall i :: 0 <= i < |blank| ==> IsSpace(blank[i]))
    ensures Fields(w + (blank + text)) == [w] + Fields(text)
  {
    assert (blank + text)[0] == blank[0];
    FieldsWord(w, blank + text);
    FieldsBlank(blank, text);
  }

  lemma FieldsHeader(text: string)
    ensures Fields("Token" + (" " + ("for" + ("\n    " + text)))) == ["Token"] + (["for"] + Fields(text))
  {
    FieldsNext("Token", " ", "for" + ("\n    " + text));
    FieldsFor(text);
  }

  lemma FieldsFor(text: string)
    ensures Fields("for" + ("\n    " + text)) == ["for"] + Fields(text)
  {
    FieldsNext("for", "\n    ", text);
  }

  lemma BashDescriptionText(name: string, hosts: seq<string>)
    requires hosts != []
    ensures BashDescription(name, hosts)
         == "Token" + (" " + ("for" + ("\n    " + ((name + "/" + hosts[0]) + (Tail(hosts[1..]) + " ")))))
  {
    assert hosts == [hosts[0]] + hosts[1..];
    JoinCons(hosts[0], hosts[1..]);
    assert name + "/" + Join(hosts, " ") + " " == (name + "/" + hosts[0]) + (Tail(hosts[1..]) + " ");
  }

  lemma BashDescriptionWords(name: string, hosts: seq<string>)
    requires IsWord(name) && '/' !in name && hosts != [] && AreWords(hosts)
    ensures ScriptWords(Fields(BashDescription(name, hosts)), name, hosts)
  {
    var first, rest := name + "/" + hosts[0], Tail(hosts[1..]) + " ";
    BashDescriptionText(name, hosts);
    FieldsHeader(first + rest);
    FieldsTailBlank(hosts[1..]);
    FieldsWord(first, rest);
    SubjectOfHeader([first] + hosts[1..]);
  }

  lemma SubjectOfHeader(words: seq<string>)
    requires words != []
    ensures Subject(["Token"] + (["for"] + words)) == words
  {
  }

  lemma {:induction false} FieldsTailBlank(ws: seq<string>)
    requires AreWords(ws)
    ensures Fields(Tail(ws) + " ") == ws
  {
    if ws == [] {
      FieldsBlank(" ", "");
    } else {
      var rest := Tail(ws[1..]) + " ";
      assert ws == [ws[0]] + ws[1..];
      JoinCons(ws[0], ws[1..]);
      assert Tail(ws) + " " == " " + (ws[0] + rest);
      FieldsBlank(" ", ws[0] + rest);
      FieldsWord(ws[0], rest);
      FieldsTailBlank(ws[1..]);
    }
  }

  /** The shell scripts' tokens are recognised on exactly the nodes they list. */
  lemma BashDescriptionDecided(name: string, hosts: seq<string>, legacyNames: seq<string>, hostnames: seq<string>)
    requires IsWord(name) && '/' !in name && hosts != [] && AreWords(hosts)
    ensures IsLegacyServiceToken(BashDescription(name, hosts), legacyNames, hostnames)
       <==> name in legacyNames && NamesHost(hosts, hostnames)
  {
    BashDescriptionWords(name, hosts);
    ScriptDescriptionsDecided(BashDescription(name, hosts), name, hosts, legacyNames, hostnames);
  }

  lemma OneWordDecided(name: string, word: string, legacyNames: seq<string>, hostnames: seq<string>)
    requires IsWord(name) && '/' !in name && IsWord(word)
    ensures IsLegacyServiceToken(name + "/" + word, legacyNames, hostnames)
       <==> name in legacyNames && NamesHost([word], hostnames)
  {
    var description := name + "/" + word;
    FieldsWord(description, "");
    assert description + "" == description && Fields(description) == [description];
    ScriptDescriptionsDecided(description, name, [word], legacyNames, hostnames);
  }

  /** The other old layout: name/fqdn, for a name of the host itself. */
  lemma PlainDescriptionDecided(name: string, fqdn: string, legacyNames: seq<string>, hostnames: seq<string>)
    requires IsWord(name) && '/' !in name && IsWord(fqdn) && fqdn[|fqdn| - 1] != '.'
    ensures IsLegacyServiceToken(name + "/" + fqdn, legacyNames, hostnames)
       <==> name in legacyNames && fqdn in hostnames
  {
    OneWordDecided(name, fqdn, legacyNames, hostnames);
    if fqdn in hostnames {
      assert fqdn in [fqdn] && Spells(fqdn, fqdn);
    }
    forall h ensures fqdn != h + "." {
      assert (h + ".")[|h|] == '.';
    }
  }

  /** And with the final dot of DNS names. */
  lemma DottedDescriptionDecided(name: string, fqdn: string, legacyNames: seq<string>, hostnames: seq<string>)
    requires IsWord(name) && '/' !in name && IsWord(fqdn + ".")
    ensures IsLegacyServiceToken(name + "/" + (fqdn + "."), legacyNames, hostnames)
       <==> name in legacyNames && fqdn in hostnames
  {
    var word := fqdn + ".";
    OneWordDecided(name, word, legacyNames, hostnames);
    if fqdn in hostnames {
      assert word in [word] && Spells(word, fqdn);
    }
    forall h | Spells(word, h) ensures h == fqdn {
      assert word[..|word| - 1] == fqdn && (h + ".")[..|h|] == h;
    }
  }

  lemma {:induction false} FieldsAfterSlash(rest: string) returns (first: string, later: seq<string>)
    ensures Fields("carbonio/" + rest) == ["carbonio" + "/" + first] + later
    ensures NoSpace(first) && Fields(rest) == (if first == "" then [] else [first]) + later
  {
    var m := WordLength(rest);
    first, later := rest[..m], Fields(rest[m..]);
    assert "carbonio/" + rest == ("carbonio" + "/" + first) + rest[m..];
    FieldsWord("carbonio" + "/" + first, rest[m..]);
    if first != "" {
      assert rest == first + rest[m..];
      FieldsWord(first, rest[m..]);
    } else {
      assert rest[m..] == rest;
    }
  }

  /**
   * A description of the deterministic scheme is taken for a legacy one exactly when "carbonio" is a legacy name
   * and a word of the rest is a host name; so never when "carbonio" is no legacy name.
   */
  lemma OwnDescriptionDecided(rest: string, legacyNames: seq<string>, hostnames: seq<string>)
    ensures IsLegacyServiceToken("carbonio/" + rest, legacyNames, hostnames)
       <==> "carbonio" in legacyNames && NamesHost(Fields(rest), hostnames)
  {
    var first, later := FieldsAfterSlash(rest);
    var words := Fields("carbonio/" + rest);
    assert words[0][8] == '/' && Subject(words) == words;
    RecogniserMeetsDefinition("carbonio/" + rest, legacyNames, hostnames);
    ReadAtSplit(words, 0, "carbonio", first, legacyNames, hostnames);
    assert words[..0] + ["carbonio"] == ["carbonio"] && words[1..] == later;
    SameNames([first] + later, Fields(rest), hostnames);
  }

  lemma SameNames(a: seq<string>, b: seq<string>, hostnames: seq<string>)
    requires forall w :: w != "" ==> (w in a <==> w in b)
    ensures NamesHost(a, hostnames) <==> NamesHost(b, hostnames)
  {
  }

  /** The same for what ServiceTokenDescription makes of a service and a node. */
  lemma ServiceTokenDescriptionDecided(service: string, nodeName: string, legacyNames: seq<string>,
                                       hostnames: seq<string>)
    ensures IsLegacyServiceToken(ServiceTokenDescription(service, nodeName), legacyNames, hostnames)
       <==> "carbonio" in legacyNames && NamesHost(Fields(service + "/" + nodeName), hostnames)
  {
    assert ServiceTokenDescription(service, nodeName) == "carbonio/" + (service + "/" + nodeName);
    OwnDescriptionDecided(service + "/" + nodeName, legacyNames, hostnames);
  }
}
