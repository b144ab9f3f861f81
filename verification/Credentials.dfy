/** The encrypted archive in which the first server hands its secrets on: packing and extracting. */
module Credentials {
  import opened GoText
  import opened Slices
  import opened Archive
  import opened Paths

  const GOSSIP_KEY := "gossip-key"
  const CONSUL_ACL_BOOTSTRAP := "consul-acl-secret.json"
  const CONSUL_CA := "consul-agent-ca.pem"
  const CONSUL_CA_KEY := "consul-agent-ca-key.pem"

  datatype Secrets = Secrets(gossip: Bytes, bootstrap: Bytes, ca: Bytes, caKey: Bytes)

  /** OpenPGP over a tarball, as an inverse pair that rejects other passwords. Sealing also takes a random salt. */
  datatype Codec = Codec(seal: (string, nat, Tar) -> Bytes, open: (string, Bytes) -> Option<Tar>)

  ghost predicate Sound(codec: Codec) {
    forall password, salt, tar, other ::
      codec.open(other, codec.seal(password, salt, tar)) == if other == password then Some(tar) else None
  }

  /** The name an archive entry gets from `AddFile(…, name, "/")`. */
  function StoredName(name: string): string {
    match ArchiveName(name, "", "/") case Some(stored) => stored case None => ""
  }

  function LastPart(path: string): string { Split(path)[|Split(path)| - 1] }

  /** The four file names; the proofs need only that they differ. */
  datatype FileNames = FileNames(gossip: string, bootstrap: string, ca: string, caKey: string) {
    predicate Differ() {
      && gossip != bootstrap && gossip != ca && gossip != caKey
      && bootstrap != ca && bootstrap != caKey && ca != caKey
    }

    function Secret(name: string, s: Secrets): Option<Bytes> {
      if name == gossip then Some(s.gossip)
      else if name == bootstrap then Some(s.bootstrap)
      else if name == ca then Some(s.ca)
      else if name == caKey then Some(s.caKey)
      else None
    }
  }

  function FileNamesUsed(): FileNames { FileNames(GOSSIP_KEY, CONSUL_ACL_BOOTSTRAP, CONSUL_CA, CONSUL_CA_KEY) }

  function SecretNamed(part: string, s: Secrets): Option<Bytes> { FileNamesUsed().Secret(part, s) }

  /** `filesToCompress` of the first setup: name in the archive to content. */
  function FilesToCompress(home: string, s: Secrets): map<string, Bytes> {
    FileMap(GOSSIP_KEY, CONSUL_ACL_BOOTSTRAP, home + "/" + CONSUL_CA, home + "/" + CONSUL_CA_KEY, s)
  }

  function FileMap(gossip: string, bootstrap: string, ca: string, caKey: string, s: Secrets): map<string, Bytes> {
    map[gossip := s.gossip, bootstrap := s.bootstrap, ca := s.ca, caKey := s.caKey]
  }

  /** Every entry is one of the four secrets, under a path that ends in its file name. */
  ghost predicate Packs(tar: Tar, s: Secrets) {
    && DistinctNames(tar.entries)
    && forall i :: 0 <= i < |tar.entries| ==>
         tar.entries[i].content.Some? && SecretNamed(LastPart(tar.entries[i].name), s) == tar.entries[i].content
  }

  /** The archive of a host with this Consul home holds exactly these four names. */
  ghost predicate NamedFor(tar: Tar, home: string) {
    Names(tar.entries)
    == {GOSSIP_KEY, CONSUL_ACL_BOOTSTRAP, StoredKey(home, CONSUL_CA), StoredKey(home, CONSUL_CA_KEY)}
  }

  lemma PlainNames()
    ensures Plain([GOSSIP_KEY]) && Plain([CONSUL_ACL_BOOTSTRAP]) && Plain([CONSUL_CA]) && Plain([CONSUL_CA_KEY])
  {
    assert [GOSSIP_KEY][0] == GOSSIP_KEY && [CONSUL_ACL_BOOTSTRAP][0] == CONSUL_ACL_BOOTSTRAP;
    assert [CONSUL_CA][0] == CONSUL_CA && [CONSUL_CA_KEY][0] == CONSUL_CA_KEY;
  }

  lemma FourNames()
    ensures FileNamesUsed().Differ()
  {
    assert |GOSSIP_KEY| == 10 && |CONSUL_ACL_BOOTSTRAP| == 22 && |CONSUL_CA| == 19 && |CONSUL_CA_KEY| == 23;
  }

  /** Names whose images differ pairwise. */
  lemma FourApart(image: string -> string, a: string, b: string, c: string, d: string)
    requires image(a) != image(b) && image(a) != image(c) && image(a) != image(d)
    requires image(b) != image(c) && image(b) != image(d) && image(c) != image(d)
    ensures forall x, y :: x in {a, b, c, d} && y in {a, b, c, d} && image(x) == image(y) ==> x == y
    ensures Distinct([a, b, c, d])
  {
  }

  /** A bare file name is stored as it is. */
  lemma BareName(name: string)
    requires Plain([name])
    ensures StoredName(name) == name && LastPart(name) == name
  {
    assert [name][0] == name;
    StoredUnderRoot(name);
    assert Split(name) == [name];
    ReducePlain(false, [name]);
  }

  /** The four stored names end in the four file names, so they differ and none can stand for another. */
  lemma StoredNames(home: string)
    ensures LastPart(StoredName(GOSSIP_KEY)) == GOSSIP_KEY == StoredName(GOSSIP_KEY)
    ensures LastPart(StoredName(CONSUL_ACL_BOOTSTRAP)) == CONSUL_ACL_BOOTSTRAP == StoredName(CONSUL_ACL_BOOTSTRAP)
    ensures LastPart(StoredName(home + "/" + CONSUL_CA)) == CONSUL_CA
    ensures LastPart(StoredName(home + "/" + CONSUL_CA_KEY)) == CONSUL_CA_KEY
  {
    PlainNames();
    BareName(GOSSIP_KEY);
    BareName(CONSUL_ACL_BOOTSTRAP);
    KeyEndsWithFile(home, CONSUL_CA);
    KeyEndsWithFile(home, CONSUL_CA_KEY);
  }

  /** Archive entries made from these files so far, in whatever order the map was walked; `key` names the entries. */
  ghost predicate Packed(key: string -> string, entries: seq<Entry>, files: map<string, Bytes>, done: set<string>) {
    && DistinctNames(entries) && done <= files.Keys
    && (forall i :: 0 <= i < |entries| ==> FromFile(key, entries[i], files, done))
    && (forall name :: name in done ==> key(name) in Names(entries))
  }

  ghost predicate FromFile(key: string -> string, e: Entry, files: map<string, Bytes>, done: set<string>) {
    exists name :: name in done && name in files && e == Entry(key(name), Some(files[name]))
  }

  ghost predicate KeysDiffer(key: string -> string, files: map<string, Bytes>) {
    forall a, b :: a in files && b in files && key(a) == key(b) ==> a == b
  }

  lemma PackedNext(key: string -> string, entries: seq<Entry>, files: map<string, Bytes>, done: set<string>,
                   name: string)
    requires Packed(key, entries, files, done) && KeysDiffer(key, files) && name in files && name !in done
    ensures Packed(key, entries + [Entry(key(name), Some(files[name]))], files, done + {name})
  {
    var e := Entry(key(name), Some(files[name]));
    var entries' := entries + [e];
    assert entries'[|entries|] == e;
    forall i | 0 <= i < |entries| ensures entries[i].name != e.name && FromFile(key, entries[i], files, done + {name}) {
      assert FromFile(key, entries[i], files, done);
    }
    assert forall i :: 0 <= i < |entries| ==> entries'[i] == entries[i];
    assert FromFile(key, e, files, done + {name});
    assert Names(entries') == Names(entries) + {e.name};
  }

  /**
   * createEncryptedSecret: the files in any order. It fails exactly when one of them cannot be read; an error on
   * closing is ignored by the code and leaves a damaged archive.
   */
  method CreateEncryptedSecret(files: map<string, Bytes>, readable: set<string>, closes: bool)
    returns (r: Option<Tar>)
    requires KeysDiffer(StoredName, files)
    ensures r.Some? <==> files.Keys <= readable
    ensures r.Some? ==> Packed(StoredName, r.value.entries, files, files.Keys) && (r.value.damaged <==> !closes)
  {
    var todo, entries: seq<Entry> := files.Keys, [];
    while todo != {}
      invariant todo <= files.Keys && files.Keys - todo <= readable
      invariant Packed(StoredName, entries, files, files.Keys - todo)
      decreases todo
    {
      var name :| name in todo;
      AddFileNeedsRootedDirectory(name, "", "/");
      var stored := ArchiveName(name, "", "/");
      if name !in readable || stored.None? {
        return None;
      }
      PackedNext(StoredName, entries, files, files.Keys - todo, name);
      assert files.Keys - todo + {name} == files.Keys - (todo - {name});
      entries, todo := entries + [Entry(stored.value, Some(files[name]))], todo - {name};
    }
    assert files.Keys - todo == files.Keys;
    return Some(Tar(entries, !closes));
  }

  /** Every file goes under a name whose last part says which secret it holds. */
  ghost predicate WellNamed(names: FileNames, key: string -> string, files: map<string, Bytes>, s: Secrets) {
    && KeysDiffer(key, files)
    && forall name :: name in files ==> names.Secret(LastPart(key(name)), s) == Some(files[name])
  }

  lemma PartsNameSecrets(names: FileNames, part: string -> string, gossip: string, bootstrap: string, ca: string,
                         caKey: string, s: Secrets)
    requires names.Differ()
    requires part(gossip) == names.gossip && part(bootstrap) == names.bootstrap
    requires part(ca) == names.ca && part(caKey) == names.caKey
    ensures KeysDiffer(part, FileMap(gossip, bootstrap, ca, caKey, s))
    ensures forall name :: name in FileMap(gossip, bootstrap, ca, caKey, s) ==>
      names.Secret(part(name), s) == Some(FileMap(gossip, bootstrap, ca, caKey, s)[name])
  {
    FourApart(part, gossip, bootstrap, ca, caKey);
    assert FileMap(gossip, bootstrap, ca, caKey, s).Keys == {gossip, bootstrap, ca, caKey};
  }

  /** For any four paths whose stored forms end in the four file names. */
  lemma FileMapIsWellNamed(names: FileNames, key: string -> string, gossip: string, bootstrap: string, ca: string,
                           caKey: string, s: Secrets)
    requires names.Differ()
    requires LastPart(key(gossip)) == names.gossip && LastPart(key(bootstrap)) == names.bootstrap
    requires LastPart(key(ca)) == names.ca && LastPart(key(caKey)) == names.caKey
    ensures WellNamed(names, key, FileMap(gossip, bootstrap, ca, caKey, s), s)
  {
    PartsNameSecrets(names, name => LastPart(key(name)), gossip, bootstrap, ca, caKey, s);
  }

  lemma FilesAreWellNamed(home: string, s: Secrets)
    ensures WellNamed(FileNamesUsed(), StoredName, FilesToCompress(home, s), s)
  {
    StoredNames(home);
    FourNames();
    FileMapIsWellNamed(FileNamesUsed(), StoredName, GOSSIP_KEY, CONSUL_ACL_BOOTSTRAP, home + "/" + CONSUL_CA,
                       home + "/" + CONSUL_CA_KEY, s);
  }

  lemma PackedFiles(names: FileNames, key: string -> string, entries: seq<Entry>, files: map<string, Bytes>, s: Secrets)
    requires Packed(key, entries, files, files.Keys) && WellNamed(names, key, files, s)
    ensures forall i :: 0 <= i < |entries| ==>
      entries[i].content.Some? && names.Secret(LastPart(entries[i].name), s) == entries[i].content
  {
    forall i | 0 <= i < |entries|
      ensures entries[i].content.Some? && names.Secret(LastPart(entries[i].name), s) == entries[i].content
    {
      assert FromFile(key, entries[i], files, files.Keys);
      var name :| name in files.Keys && entries[i] == Entry(key(name), Some(files[name]));
    }
  }

  lemma FourPacked(key: string -> string, entries: seq<Entry>, gossip: string, bootstrap: string, ca: string,
                   caKey: string, s: Secrets)
    requires var files := FileMap(gossip, bootstrap, ca, caKey, s); Packed(key, entries, files, files.Keys)
    ensures Names(entries) == {key(gossip), key(bootstrap), key(ca), key(caKey)}
  {
    var files := FileMap(gossip, bootstrap, ca, caKey, s);
    forall i | 0 <= i < |entries| ensures entries[i].name in {key(gossip), key(bootstrap), key(ca), key(caKey)} {
      assert FromFile(key, entries[i], files, files.Keys);
    }
  }

  lemma PackedSecrets(tar: Tar, home: string, s: Secrets)
    requires Packed(StoredName, tar.entries, FilesToCompress(home, s), FilesToCompress(home, s).Keys)
    ensures Packs(tar, s) && NamedFor(tar, home)
  {
    FilesAreWellNamed(home, s);
    PackedFiles(FileNamesUsed(), StoredName, tar.entries, FilesToCompress(home, s), s);
    StoredNames(home);
    FourPacked(StoredName, tar.entries, GOSSIP_KEY, CONSUL_ACL_BOOTSTRAP, home + "/" + CONSUL_CA,
               home + "/" + CONSUL_CA_KEY, s);
  }

  // ---- Extraction by a later server or an agent

  datatype ExtractError = WrongPassword | UnusableHome | NotExtracted

  /** Whatever the home, the four names asked for differ and end in the four file names. */
  lemma RequestsDiffer(home: string)
    ensures var ca, caKey := RequestedKey(home, CONSUL_CA), RequestedKey(home, CONSUL_CA_KEY);
      (ca.Some? && caKey.Some? ==>
         && LastPart(ca.value) == CONSUL_CA && LastPart(caKey.value) == CONSUL_CA_KEY
         && Distinct([ca.value, caKey.value, CONSUL_ACL_BOOTSTRAP, GOSSIP_KEY]))
  {
    PlainNames();
    BareName(GOSSIP_KEY);
    BareName(CONSUL_ACL_BOOTSTRAP);
    KeyEndsWithFile(home, CONSUL_CA);
    KeyEndsWithFile(home, CONSUL_CA_KEY);
    FourNames();
    var ca, caKey := RequestedKey(home, CONSUL_CA), RequestedKey(home, CONSUL_CA_KEY);
    if ca.Some? && caKey.Some? {
      FourApart(LastPart, ca.value, caKey.value, CONSUL_ACL_BOOTSTRAP, GOSSIP_KEY);
    }
  }

  /** A file read under a name is the secret its last part names. */
  lemma FileIsSecret(files: map<string, Bytes>, requested: seq<string>, tar: Tar, s: Secrets, name: string)
    requires Packs(tar, s) && HasContents(files, requested, tar.entries) && AllPresent(requested, tar.entries)
    requires name in requested
    ensures name in files && SecretNamed(LastPart(name), s) == Some(files[name])
  {
    assert name in Names(tar.entries);
    var i :| 0 <= i < |tar.entries| && tar.entries[i].name == name;
    assert tar.entries[i].content == Some(files[name]);
  }

  /** With nothing unreadable in it, a packed archive is read exactly when the distinct requests are all there. */
  lemma PackedIsRead(r: ReadResult, requested: seq<string>, tar: Tar, s: Secrets)
    requires Packs(tar, s) && ReadsAs(r, tar, requested)
    ensures r.Files? <==> !tar.damaged && Distinct(requested) && AllPresent(requested, tar.entries)
    ensures r.Files? ==> HasContents(r.files, requested, tar.entries)
  {
    assert Unreadable(tar, requested) <==> tar.damaged;
  }

  lemma OnlyItsOwnKey(home: string, firstHome: string, ca: string)
    requires RequestedKey(home, CONSUL_CA) == Some(ca)
    ensures ca !in {GOSSIP_KEY, CONSUL_ACL_BOOTSTRAP, StoredKey(firstHome, CONSUL_CA_KEY)}
  {
    PlainNames();
    FourNames();
    BareName(GOSSIP_KEY);
    BareName(CONSUL_ACL_BOOTSTRAP);
    KeyEndsWithFile(home, CONSUL_CA);
    KeyEndsWithFile(firstHome, CONSUL_CA_KEY);
    PartsApart(ca, GOSSIP_KEY, CONSUL_ACL_BOOTSTRAP, StoredKey(firstHome, CONSUL_CA_KEY));
  }

  lemma PartsApart(a: string, b: string, c: string, d: string)
    requires LastPart(a) != LastPart(b) && LastPart(a) != LastPart(c) && LastPart(a) != LastPart(d)
    ensures a !in {b, c, d}
  {
  }

  lemma AgreeingKeys(home: string, firstHome: string, ca: string, caKey: string)
    requires RequestedKey(home, CONSUL_CA) == Some(ca) && RequestedKey(home, CONSUL_CA_KEY) == Some(caKey)
    ensures ca == StoredKey(firstHome, CONSUL_CA) <==> HomesAgree(home, firstHome)
    ensures caKey == StoredKey(firstHome, CONSUL_CA_KEY) <==> HomesAgree(home, firstHome)
  {
    PlainNames();
    KeysMeet(home, firstHome, CONSUL_CA);
    KeysMeet(home, firstHome, CONSUL_CA_KEY);
  }

  lemma FourPresent(entries: seq<Entry>, gossip: string, bootstrap: string, storedCa: string, storedKey: string,
                    ca: string, caKey: string)
    requires Names(entries) == {gossip, bootstrap, storedCa, storedKey} && ca !in {gossip, bootstrap, storedKey}
    requires ca == storedCa <==> caKey == storedKey
    ensures AllPresent([ca, caKey, bootstrap, gossip], entries) <==> ca == storedCa
  {
    var requested := [ca, caKey, bootstrap, gossip];
    assert requested[0] == ca && ca in requested;
    if ca == storedCa {
      forall name | name in requested ensures name in Names(entries) {
        assert name == ca || name == caKey || name == bootstrap || name == gossip;
      }
    }
  }

  /** The names asked for are in the archive exactly when the homes agree. */
  lemma KeysPresent(tar: Tar, home: string, firstHome: string)
    ensures NamedFor(tar, firstHome) ==>
      var ca, caKey := RequestedKey(home, CONSUL_CA), RequestedKey(home, CONSUL_CA_KEY);
      (HomesAgree(home, firstHome) <==>
         && ca.Some? && caKey.Some?
         && AllPresent([ca.value, caKey.value, CONSUL_ACL_BOOTSTRAP, GOSSIP_KEY], tar.entries))
  {
    var ca, caKey := RequestedKey(home, CONSUL_CA), RequestedKey(home, CONSUL_CA_KEY);
    if NamedFor(tar, firstHome) {
      if ca.Some? && caKey.Some? {
        PresentKeys(tar, home, firstHome, ca.value, caKey.value);
      } else if HomesAgree(home, firstHome) {
        AgreeingHomeIsUsable(home, firstHome);
        assert false;
      }
    }
  }

  lemma PresentKeys(tar: Tar, home: string, firstHome: string, ca: string, caKey: string)
    requires NamedFor(tar, firstHome)
    requires RequestedKey(home, CONSUL_CA) == Some(ca) && RequestedKey(home, CONSUL_CA_KEY) == Some(caKey)
    ensures AllPresent([ca, caKey, CONSUL_ACL_BOOTSTRAP, GOSSIP_KEY], tar.entries) <==> HomesAgree(home, firstHome)
  {
    AgreeingKeys(home, firstHome, ca, caKey);
    OnlyItsOwnKey(home, firstHome, ca);
    FourPresent(tar.entries, GOSSIP_KEY, CONSUL_ACL_BOOTSTRAP, StoredKey(firstHome, CONSUL_CA),
                StoredKey(firstHome, CONSUL_CA_KEY), ca, caKey);
  }

  lemma AgreeingHomeIsUsable(home: string, firstHome: string)
    requires HomesAgree(home, firstHome)
    ensures RequestedKey(home, CONSUL_CA).Some? && RequestedKey(home, CONSUL_CA_KEY).Some?
  {
    PlainNames();
    KeysMeet(home, firstHome, CONSUL_CA);
    KeysMeet(home, firstHome, CONSUL_CA_KEY);
  }

  lemma FourSecrets(files: map<string, Bytes>, tar: Tar, s: Secrets, ca: string, caKey: string)
    requires LastPart(ca) == CONSUL_CA && LastPart(caKey) == CONSUL_CA_KEY
    requires var requested := [ca, caKey, CONSUL_ACL_BOOTSTRAP, GOSSIP_KEY];
      Packs(tar, s) && HasContents(files, requested, tar.entries) && AllPresent(requested, tar.entries)
    ensures GOSSIP_KEY in files && CONSUL_ACL_BOOTSTRAP in files && ca in files && caKey in files
    ensures Secrets(files[GOSSIP_KEY], files[CONSUL_ACL_BOOTSTRAP], files[ca], files[caKey]) == s
  {
    var requested := [ca, caKey, CONSUL_ACL_BOOTSTRAP, GOSSIP_KEY];
    PlainNames();
    BareName(GOSSIP_KEY);
    BareName(CONSUL_ACL_BOOTSTRAP);
    FileIsSecret(files, requested, tar, s, ca);
    FileIsSecret(files, requested, tar, s, caKey);
    FileIsSecret(files, requested, tar, s, CONSUL_ACL_BOOTSTRAP);
    FileIsSecret(files, requested, tar, s, GOSSIP_KEY);
    FourNames();
    SecretsByName(FileNamesUsed(), s);
  }

  lemma SecretsByName(names: FileNames, s: Secrets)
    requires names.Differ()
    ensures names.Secret(names.gossip, s) == Some(s.gossip) && names.Secret(names.bootstrap, s) == Some(s.bootstrap)
    ensures names.Secret(names.ca, s) == Some(s.ca) && names.Secret(names.caKey, s) == Some(s.caKey)
  {
  }

  /** ReadFiles with its requests as variadic arguments. */
  method ReadFour(tar: Tar, a: string, b: string, c: string, d: string) returns (r: ReadResult)
    requires DistinctNames(tar.entries)
    ensures ReadsAs(r, tar, [a, b, c, d])
  {
    var files := new string[4][a, b, c, d];
    assert files[..] == [a, b, c, d];
    r := ReadFiles(tar, files);
  }

  /** Reads the four files of a packed archive, whose names differ and end in the four file names. */
  method ReadSecrets(tar: Tar, ca: string, caKey: string, ghost s: Secrets) returns (r: Option<Secrets>)
    requires Packs(tar, s) && LastPart(ca) == CONSUL_CA && LastPart(caKey) == CONSUL_CA_KEY
    requires Distinct([ca, caKey, CONSUL_ACL_BOOTSTRAP, GOSSIP_KEY])
    ensures r == if !tar.damaged && AllPresent([ca, caKey, CONSUL_ACL_BOOTSTRAP, GOSSIP_KEY], tar.entries)
                 then Some(s) else None
  {
    var extracted := ReadFour(tar, ca, caKey, CONSUL_ACL_BOOTSTRAP, GOSSIP_KEY);
    PackedIsRead(extracted, [ca, caKey, CONSUL_ACL_BOOTSTRAP, GOSSIP_KEY], tar, s);
    if !extracted.Files? {
      return None;
    }
    FourSecrets(extracted.files, tar, s, ca, caKey);
    return Some(Secrets(extracted.files[GOSSIP_KEY], extracted.files[CONSUL_ACL_BOOTSTRAP],
                        extracted.files[ca], extracted.files[caKey]));
  }

  /**
   * What NewReader and ReadFiles make of a sealed archive: the secrets in it, exactly when the password is right, the
   * archive can be read to its end and the homes agree.
   */
  method Extract(codec: Codec, content: Bytes, password: string, home: string,
                 ghost sealedWith: string, ghost salt: nat, ghost tar: Tar, ghost s: Secrets, ghost firstHome: string)
    returns (r: Result<Secrets, ExtractError>)
    requires Sound(codec) && content == codec.seal(sealedWith, salt, tar) && Packs(tar, s)
    ensures r.Ok? ==> r.value == s && password == sealedWith && !tar.damaged
    ensures NamedFor(tar, firstHome) ==>
      (r.Ok? <==> password == sealedWith && !tar.damaged && HomesAgree(home, firstHome))
  {
    var archive := codec.open(password, content);
    if archive.None? {
      return Err(WrongPassword);
    }
    var ca, caKey := RequestedKey(home, CONSUL_CA), RequestedKey(home, CONSUL_CA_KEY);
    RequestsDiffer(home);
    KeysPresent(tar, home, firstHome);
    if ca.None? || caKey.None? {
      return Err(UnusableHome);
    }
    var secrets := ReadSecrets(archive.value, ca.value, caKey.value, s);
    return match secrets case None => Err(NotExtracted) case Some(all) => Ok(all);
  }
}
