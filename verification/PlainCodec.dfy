/** A codec that meets what `Credentials` asks of OpenPGP over tar, so that the assumption is one that can be met. */
module PlainCodec {
  import opened GoText
  import opened Archive
  import opened Credentials

  /** Three bytes of a character, and byte strings whose end can be seen. */
  function CharBytes(c: char): Bytes { [c as int / 65536, c as int / 256 % 256, c as int % 256] }

  function TextBytes(s: string): Bytes { if s == "" then [0] else [1] + CharBytes(s[0]) + TextBytes(s[1..]) }

  function ContentBytes(bs: Bytes): Bytes { if bs == [] then [0] else [1, bs[0]] + ContentBytes(bs[1..]) }

  function OptionBytes(content: Option<Bytes>): Bytes {
    match content case None => [0] case Some(bs) => [1] + ContentBytes(bs)
  }

  function EntriesBytes(entries: seq<Entry>): Bytes {
    if entries == [] then [0] else
      [1] + (TextBytes(entries[0].name) + (OptionBytes(entries[0].content) + EntriesBytes(entries[1..])))
  }

  function Seal(password: string, salt: nat, tar: Tar): Bytes {
    TextBytes(password) + ([if tar.damaged then 1 else 0] + EntriesBytes(tar.entries))
  }

  ghost function Open(password: string, content: Bytes): Option<Tar> {
    if exists tar :: Seal(password, 0, tar) == content then
      var tar :| Seal(password, 0, tar) == content;
      Some(tar)
    else None
  }

  lemma OneChar(a: char, b: char)
    requires CharBytes(a) == CharBytes(b)
    ensures a == b
  {
    var x, y := CharBytes(a), CharBytes(b);
    assert x[0] == y[0] && x[1] == y[1] && x[2] == y[2];
  }

  /** Two texts that go on to the same bytes have their first `n` bytes in common, and so does what follows. */
  lemma SameHead(a: Bytes, x: Bytes, b: Bytes, y: Bytes, n: nat)
    requires n <= |a| && n <= |b| && a + x == b + y
    ensures a[..n] == b[..n] && a[n..] + x == b[n..] + y
  {
    assert a[..n] == (a + x)[..n] && b[..n] == (b + y)[..n];
    assert a[n..] + x == (a + x)[n..] && b[n..] + y == (b + y)[n..];
  }

  lemma TextParts(s: string)
    requires s != ""
    ensures |TextBytes(s)| >= 4 && TextBytes(s)[..1] == [1] && TextBytes(s)[1..4] == CharBytes(s[0])
    ensures TextBytes(s)[4..] == TextBytes(s[1..]) && s == [s[0]] + s[1..]
  {
  }

  lemma {:induction false} TextOnce(a: string, x: Bytes, b: string, y: Bytes)
    requires TextBytes(a) + x == TextBytes(b) + y
    ensures a == b && x == y
  {
    SameHead(TextBytes(a), x, TextBytes(b), y, 1);
    assert TextBytes(a)[..1][0] == TextBytes(b)[..1][0];
    if a == "" {
      assert [] + x == x && [] + y == y;
    } else {
      TextParts(a);
      TextParts(b);
      SameHead(TextBytes(a), x, TextBytes(b), y, 4);
      assert TextBytes(a)[..4][1..] == TextBytes(a)[1..4] && TextBytes(b)[..4][1..] == TextBytes(b)[1..4];
      OneChar(a[0], b[0]);
      TextOnce(a[1..], x, b[1..], y);
    }
  }

  lemma ContentParts(bs: Bytes)
    requires bs != []
    ensures |ContentBytes(bs)| >= 2 && ContentBytes(bs)[..2] == [1, bs[0]]
    ensures ContentBytes(bs)[2..] == ContentBytes(bs[1..]) && bs == [bs[0]] + bs[1..]
  {
  }

  lemma {:induction false} ContentOnce(a: Bytes, x: Bytes, b: Bytes, y: Bytes)
    requires ContentBytes(a) + x == ContentBytes(b) + y
    ensures a == b && x == y
  {
    SameHead(ContentBytes(a), x, ContentBytes(b), y, 1);
    assert ContentBytes(a)[..1][0] == ContentBytes(b)[..1][0];
    if a == [] {
      assert [] + x == x && [] + y == y;
    } else {
      ContentParts(a);
      ContentParts(b);
      SameHead(ContentBytes(a), x, ContentBytes(b), y, 2);
      assert [1, a[0]][1] == [1, b[0]][1];
      ContentOnce(a[1..], x, b[1..], y);
    }
  }

  lemma OptionOnce(a: Option<Bytes>, x: Bytes, b: Option<Bytes>, y: Bytes)
    requires OptionBytes(a) + x == OptionBytes(b) + y
    ensures a == b && x == y
  {
    SameHead(OptionBytes(a), x, OptionBytes(b), y, 1);
    assert OptionBytes(a)[..1][0] == OptionBytes(b)[..1][0];
    if a.None? {
      assert [] + x == x && [] + y == y;
    } else {
      assert OptionBytes(a)[1..] == ContentBytes(a.value) && OptionBytes(b)[1..] == ContentBytes(b.value);
      ContentOnce(a.value, x, b.value, y);
    }
  }

  lemma {:induction false} EntriesOnce(a: seq<Entry>, b: seq<Entry>)
    requires EntriesBytes(a) == EntriesBytes(b)
    ensures a == b
  {
    assert EntriesBytes(a)[0] == EntriesBytes(b)[0];
    if a != [] {
      var x := OptionBytes(a[0].content) + EntriesBytes(a[1..]);
      var y := OptionBytes(b[0].content) + EntriesBytes(b[1..]);
      assert TextBytes(a[0].name) + x == EntriesBytes(a)[1..] && TextBytes(b[0].name) + y == EntriesBytes(b)[1..];
      TextOnce(a[0].name, x, b[0].name, y);
      OptionOnce(a[0].content, EntriesBytes(a[1..]), b[0].content, EntriesBytes(b[1..]));
      EntriesOnce(a[1..], b[1..]);
      assert a == [a[0]] + a[1..] && b == [b[0]] + b[1..];
    }
  }

  /** What is sealed determines the password and the archive. */
  lemma SealedOnce(password: string, salt: nat, tar: Tar, password': string, salt': nat, tar': Tar)
    requires Seal(password, salt, tar) == Seal(password', salt', tar')
    ensures password == password' && tar == tar'
  {
    var x := [if tar.damaged then 1 else 0] + EntriesBytes(tar.entries);
    var y := [if tar'.damaged then 1 else 0] + EntriesBytes(tar'.entries);
    TextOnce(password, x, password', y);
    assert x[0] == y[0] && EntriesBytes(tar.entries) == x[1..] && EntriesBytes(tar'.entries) == y[1..];
    EntriesOnce(tar.entries, tar'.entries);
  }

  lemma SoundCodecExists()
    ensures Sound(Codec(Seal, Open))
  {
    forall password, salt: nat, tar, other
      ensures Open(other, Seal(password, salt, tar)) == if other == password then Some(tar) else None
    {
      var content := Seal(password, salt, tar);
      if tar' :| Seal(other, 0, tar') == content {
        SealedOnce(password, salt, tar, other, 0, tar');
      }
      assert other == password ==> Seal(other, 0, tar) == content;
      if other == password {
        var found := Open(other, content).value;
        SealedOnce(password, salt, tar, other, 0, found);
      }
    }
  }
}
