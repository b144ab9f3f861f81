/** The steps of a setup, in the order in which each kind of host takes them. */
module SetupSteps {

  /** What a setup has got done, in its own terms. */
  datatype Step =
    | Allowed | PathChosen | HostKnown | AddressChecked | AuthorityMade
    | Fetched | CaSaved | KeyWritten | Certified | KeyRemoved
    | ConfigurationWritten | ConfigurationProtected | BindAddressSaved
    | Registered | Started | LeaderElected | AclBootstrapped | TokenSet
    | ArchiveMade | PasswordSaved | Uploaded | Enabled

  /** The steps in between are the plan up to some point, and the whole of it exactly when it is done. */
  ghost predicate Progress(before: seq<Step>, after: seq<Step>, plan: seq<Step>, done: bool) {
    before <= after && after[|before|..] <= plan && (done <==> after[|before|..] == plan)
  }

  lemma NotBegun(steps: seq<Step>, plan: seq<Step>)
    requires plan != []
    ensures Progress(steps, steps, plan, false)
  {
  }

  /** One plan and then another, which is begun only when the first is done. */
  lemma Onward(before: seq<Step>, between: seq<Step>, after: seq<Step>, plan: seq<Step>, next: seq<Step>,
               first: bool, done: bool)
    requires Progress(before, between, plan, first)
    requires if first then Progress(between, after, next, done) else after == between && !done
    ensures Progress(before, after, plan + next, done)
  {
    if first {
      assert after[|before|..] == plan + after[|between|..];
    }
  }

  const CONFIGURE := [ConfigurationWritten, ConfigurationProtected, BindAddressSaved]
  const HAND_ON := [ArchiveMade] + [PasswordSaved] + [Uploaded]
  const BOOTSTRAP := [LeaderElected] + [AclBootstrapped] + [TokenSet] + HAND_ON + [Enabled]
  const ANNOUNCE := [HostKnown, AddressChecked] + [AuthorityMade] + ([Certified] + CONFIGURE) + [Registered]
  const FIRST := ANNOUNCE + BOOTSTRAP
  const JOIN := ([Certified] + CONFIGURE) + [Registered] + [Started, TokenSet] + [PasswordSaved] + [Enabled]
  const IMPORT := ([HostKnown, AddressChecked] + [Fetched]) + [CaSaved] + ([KeyWritten] + JOIN)
  const KEY := [KeyWritten] + [Certified] + [KeyRemoved]
  const INSTALL := ([CaSaved] + KEY) + [AddressChecked] + CONFIGURE + [Started, TokenSet] + [Enabled]
  const AGENT := [Allowed] + ([HostKnown] + [Fetched]) + INSTALL

  /** How the plans are put together. */
  lemma Parts()
    ensures HAND_ON == [ArchiveMade] + [PasswordSaved] + [Uploaded]
    ensures BOOTSTRAP == [LeaderElected] + [AclBootstrapped] + [TokenSet] + HAND_ON + [Enabled]
    ensures ANNOUNCE == [HostKnown, AddressChecked] + [AuthorityMade] + ([Certified] + CONFIGURE) + [Registered]
    ensures FIRST == ANNOUNCE + BOOTSTRAP
    ensures JOIN == ([Certified] + CONFIGURE) + [Registered] + [Started, TokenSet] + [PasswordSaved] + [Enabled]
    ensures IMPORT == ([HostKnown, AddressChecked] + [Fetched]) + [CaSaved] + ([KeyWritten] + JOIN)
    ensures KEY == [KeyWritten] + [Certified] + [KeyRemoved]
    ensures INSTALL == ([CaSaved] + KEY) + [AddressChecked] + CONFIGURE + [Started, TokenSet] + [Enabled]
    ensures AGENT == [Allowed] + ([HostKnown] + [Fetched]) + INSTALL
  {
  }

  lemma HandOnNotBegun(steps: seq<Step>)
    ensures Progress(steps, steps, HAND_ON, false)
  {
  }

  lemma KeyNotBegun(steps: seq<Step>)
    ensures Progress(steps, steps, KEY, false)
  {
  }

  /** Three, four or five plans one after another. */
  lemma Threefold(s0: seq<Step>, s1: seq<Step>, s2: seq<Step>, s3: seq<Step>, p: seq<Step>, q: seq<Step>, u: seq<Step>,
                  first: bool, second: bool, third: bool)
    requires Progress(s0, s1, p, first)
    requires if first then Progress(s1, s2, q, second) else s2 == s1 && !second
    requires if second then Progress(s2, s3, u, third) else s3 == s2 && !third
    ensures Progress(s0, s3, p + q + u, third)
  {
    hide *;
    Onward(s0, s1, s2, p, q, first, second);
    Onward(s0, s2, s3, p + q, u, second, third);
  }

  lemma Fourfold(s0: seq<Step>, s1: seq<Step>, s2: seq<Step>, s3: seq<Step>, s4: seq<Step>,
                 p: seq<Step>, q: seq<Step>, u: seq<Step>, v: seq<Step>,
                 first: bool, second: bool, third: bool, fourth: bool)
    requires Progress(s0, s1, p, first)
    requires if first then Progress(s1, s2, q, second) else s2 == s1 && !second
    requires if second then Progress(s2, s3, u, third) else s3 == s2 && !third
    requires if third then Progress(s3, s4, v, fourth) else s4 == s3 && !fourth
    ensures Progress(s0, s4, p + q + u + v, fourth)
  {
    hide *;
    Threefold(s0, s1, s2, s3, p, q, u, first, second, third);
    Onward(s0, s3, s4, p + q + u, v, third, fourth);
  }

  lemma Fivefold(s0: seq<Step>, s1: seq<Step>, s2: seq<Step>, s3: seq<Step>, s4: seq<Step>, s5: seq<Step>,
                 p: seq<Step>, q: seq<Step>, u: seq<Step>, v: seq<Step>, w: seq<Step>,
                 first: bool, second: bool, third: bool, fourth: bool, fifth: bool)
    requires Progress(s0, s1, p, first)
    requires if first then Progress(s1, s2, q, second) else s2 == s1 && !second
    requires if second then Progress(s2, s3, u, third) else s3 == s2 && !third
    requires if third then Progress(s3, s4, v, fourth) else s4 == s3 && !fourth
    requires if fourth then Progress(s4, s5, w, fifth) else s5 == s4 && !fifth
    ensures Progress(s0, s5, p + q + u + v + w, fifth)
  {
    hide *;
    Fourfold(s0, s1, s2, s3, s4, p, q, u, v, first, second, third, fourth);
    Onward(s0, s4, s5, p + q + u + v, w, fourth, fifth);
  }

  /** The plans in full. */
  lemma Plans()
    ensures FIRST ==
      [HostKnown, AddressChecked, AuthorityMade, Certified, ConfigurationWritten, ConfigurationProtected,
       BindAddressSaved, Registered, LeaderElected, AclBootstrapped, TokenSet, ArchiveMade, PasswordSaved, Uploaded,
       Enabled]
    ensures IMPORT ==
      [HostKnown, AddressChecked, Fetched, CaSaved, KeyWritten, Certified, ConfigurationWritten,
       ConfigurationProtected, BindAddressSaved, Registered, Started, TokenSet, PasswordSaved, Enabled]
    ensures AGENT ==
      [Allowed, HostKnown, Fetched, CaSaved, KeyWritten, Certified, KeyRemoved, AddressChecked, ConfigurationWritten,
       ConfigurationProtected, BindAddressSaved, Started, TokenSet, Enabled]
  {
  }
}
