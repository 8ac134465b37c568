/** pwcli's Patch: the tracker's attribute record of one patch, its state
    update mirrored to the tracker, and the header of a reply to the
    patch's mail, as unittests/test_patch.py pins them down. */
module Patches {
  import opened Wrappers
  import opened Text

  /** A KeyError for a missing attribute, or a header the reply needs
      that the original mail lacks. */
  datatype Error = KeyError(key: string) | MissingHeader(name: string)

  /** One `patch_set` call sent to the tracker: the patch id and the fields
      to change. */
  datatype Update = PatchSet(patchId: string, fields: map<string, string>)

  /** The patch tracker as the patch sees it: the state id it assigns to a
      state name (`get_state_id`), and the updates sent to it so far. */
  class Tracker {
    const stateIdOf: string -> string
    var sent: seq<Update>

    constructor(stateIdOf: string -> string)
      ensures this.stateIdOf == stateIdOf && sent == []
    {
      this.stateIdOf := stateIdOf;
      sent := [];
    }

    /** rpc.patch_set(id, fields): the update is recorded after all earlier
        ones. */
    method PatchSetCall(patchId: string, fields: map<string, string>)
      modifies this
      ensures sent == old(sent) + [PatchSet(patchId, fields)]
    {
      sent := sent + [PatchSet(patchId, fields)];
    }
  }

  function Find(attributes: map<string, string>, key: string): (r: Option<string>)
    ensures r.Some? <==> key in attributes
    ensures r.Some? ==> r.value == attributes[key]
  {
    if key in attributes then Some(attributes[key]) else None
  }

  /** A patch as the tracker describes it. The getters return the attribute
      of that name, or None when it is missing (the model's stand-in for a
      KeyError). */
  class Patch {
    const pw: Tracker
    var attributes: map<string, string>

    constructor(pw: Tracker, attributes: map<string, string>)
      ensures this.pw == pw && this.attributes == attributes
      ensures GetName() == Find(attributes, "name") && GetId() == Find(attributes, "id")
      ensures GetDelegate() == Find(attributes, "delegate")
      ensures GetStateId() == Find(attributes, "state_id") && GetStateName() == Find(attributes, "state")
    {
      this.pw := pw;
      this.attributes := attributes;
    }

    function GetName(): (r: Option<string>)
      reads this
      ensures r.Some? <==> "name" in attributes
      ensures r.Some? ==> r.value == attributes["name"]
    {
      Find(attributes, "name")
    }

    function GetId(): (r: Option<string>)
      reads this
      ensures r.Some? <==> "id" in attributes
      ensures r.Some? ==> r.value == attributes["id"]
    {
      Find(attributes, "id")
    }

    function GetDelegate(): (r: Option<string>)
      reads this
      ensures r.Some? <==> "delegate" in attributes
      ensures r.Some? ==> r.value == attributes["delegate"]
    {
      Find(attributes, "delegate")
    }

    function GetStateId(): (r: Option<string>)
      reads this
      ensures r.Some? <==> "state_id" in attributes
      ensures r.Some? ==> r.value == attributes["state_id"]
    {
      Find(attributes, "state_id")
    }

    function GetStateName(): (r: Option<string>)
      reads this
      ensures r.Some? <==> "state" in attributes
      ensures r.Some? ==> r.value == attributes["state"]
    {
      Find(attributes, "state")
    }

    /** set_state_name: asks the tracker for the id of the new state, sends
        the tracker one update setting the patch's state to that id, and
        records both the name and the id on the patch. Every other attribute
        is kept. In this model a patch without an id raises before anything
        happens. */
    method SetStateName(name: string) returns (r: Outcome<Error>)
      modifies this, pw
      ensures r.Fail? <==> "id" !in old(attributes)
      ensures r.Fail? ==> r.error == KeyError("id") && attributes == old(attributes) && pw.sent == old(pw.sent)
      ensures r.Pass? ==>
        && attributes == old(attributes)["state" := name]["state_id" := pw.stateIdOf(name)]
        && pw.sent == old(pw.sent) + [PatchSet(old(attributes)["id"], map["state" := pw.stateIdOf(name)])]
      ensures r.Pass? ==>
        && GetStateName() == Some(name) && GetStateId() == Some(pw.stateIdOf(name))
        && GetName() == old(GetName()) && GetId() == old(GetId()) && GetDelegate() == old(GetDelegate())
    {
      if "id" !in attributes {
        return Fail(KeyError("id"));
      }
      var stateId := pw.stateIdOf(name);
      pw.PatchSetCall(attributes["id"], map["state" := stateId]);
      attributes := attributes["state" := name]["state_id" := stateId];
      r := Pass;
    }
  }

  /** test_attributes: getters return the constructor's attributes, and
      after set_state_name('Accepted') with a tracker that answers '7777'
      the patch holds the new state and the tracker got exactly one update. */
  method AttributesScenario() returns (before: seq<Option<string>>, after: seq<Option<string>>, sent: seq<Update>)
    ensures before == [Some("nnnn"), Some("11"), Some("dddd"), Some("1234"), Some("ssss")]
    ensures after == [Some("Accepted"), Some("7777")]
    ensures sent == [PatchSet("11", map["state" := "7777"])]
  {
    var attributes := map["name" := "nnnn", "id" := "11", "delegate" := "dddd", "state_id" := "1234", "state" := "ssss"];
    var pw := new Tracker(_ => "7777");
    var patch := new Patch(pw, attributes);
    before := [patch.GetName(), patch.GetId(), patch.GetDelegate(), patch.GetStateId(), patch.GetStateName()];
    var r := patch.SetStateName("Accepted");
    after := [patch.GetStateName(), patch.GetStateId()];
    sent := pw.sent;
  }

  // -----------------------------------------------------------------------
  // Reply header
  // -----------------------------------------------------------------------

  /** The headers of a parsed mail, keyed by lower-cased name: a mail
      message matches header names without regard to case. */
  type Headers = map<string, string>

  /** The first field of `fields` called `name`, in any case, is field i. */
  predicate FirstNamed(fields: seq<(string, string)>, i: int, name: string) {
    && 0 <= i < |fields| && Lower(fields[i].0) == Lower(name)
    && forall j :: 0 <= j < i ==> Lower(fields[j].0) != Lower(name)
  }

  /** The header fields of a mail, name and value in the order they appear,
      as `Headers`: each name under its lower-cased form, and for a name
      that occurs more than once the first occurrence, which is the one a
      lookup answers with. */
  function HeadersOf(fields: seq<(string, string)>): (r: Headers)
    ensures forall k :: k in r <==> exists i :: 0 <= i < |fields| && Lower(fields[i].0) == k
    ensures forall i, name :: FirstNamed(fields, i, name) ==> Lower(name) in r && r[Lower(name)] == fields[i].1
  {
    if fields == [] then map[]
    else
      var rest := HeadersOf(fields[1..]);
      var r := rest[Lower(fields[0].0) := fields[0].1];
      assert forall i :: 1 <= i < |fields| ==> fields[i] == fields[1..][i - 1];
      assert forall k :: k in r <==> exists i :: 0 <= i < |fields| && Lower(fields[i].0) == k by {
        forall k | k in r ensures exists i :: 0 <= i < |fields| && Lower(fields[i].0) == k {
          if k != Lower(fields[0].0) {
            var i :| 0 <= i < |fields[1..]| && Lower(fields[1..][i].0) == k;
            assert Lower(fields[i + 1].0) == k;
          }
        }
      }
      assert forall i, name :: FirstNamed(fields, i, name) ==> Lower(name) in r && r[Lower(name)] == fields[i].1 by {
        forall i, name | FirstNamed(fields, i, name) ensures Lower(name) in r && r[Lower(name)] == fields[i].1 {
          if i > 0 {
            assert FirstNamed(fields[1..], i - 1, name);
          }
        }
      }
      r
  }

  /** `msg[name]`: the header called `name`, whatever the case of its
      letters; None where the mail has no such header. */
  function Get(original: Headers, name: string): (r: Option<string>)
    ensures r.Some? <==> Lower(name) in original
    ensures r.Some? ==> r.value == original[Lower(name)]
  {
    if Lower(name) in original then Some(original[Lower(name)]) else None
  }

  /** Asking for a header under any spelling of its name gives the same
      answer as asking for it in lower case. */
  lemma GetFoldsCase(original: Headers, name: string)
    ensures Get(original, name) == Get(original, Lower(name))
  {
    LowerIdempotent(name);
  }

  /** In a parsed mail, a header is found exactly when some field has its
      name in some case, and then its value is the first such field's. */
  lemma GetField(fields: seq<(string, string)>, name: string)
    ensures Get(HeadersOf(fields), name).Some? <==> exists i :: 0 <= i < |fields| && Lower(fields[i].0) == Lower(name)
    ensures forall i :: FirstNamed(fields, i, name) ==> Get(HeadersOf(fields), name) == Some(fields[i].1)
  {
  }

  /** The header of a reply: From, To, an optional Cc list and Subject. */
  datatype Reply = Reply(from: string, to: string, cc: Option<seq<string>>, subject: string)

  /** `name <email>`, the form of a From header. The address it stands for
      is the email, whatever the name. */
  function FormatAddress(name: string, email: string): (r: string)
    ensures StartsWith(r, name + " <")
    ensures '<' !in email ==> EmailOf(r) == email
  {
    var r := name + " <" + email + ">";
    assert r[..|name| + 2] == name + " <";
    assert r == (name + " ") + "<" + email + ">";
    if '<' in email then r
    else BracketedEmail(name + " ", email); r
  }

  /** The position of the last `c` in `s`. */
  function LastIndex(s: string, c: char): (r: Option<nat>)
    ensures r.Some? <==> c in s
    ensures r.Some? ==> r.value < |s| && s[r.value] == c && c !in s[r.value + 1..]
  {
    if s == [] then None
    else if s[|s| - 1] == c then
      assert s[|s|..] == [];
      Some(|s| - 1)
    else
      var init := s[..|s| - 1];
      var r := LastIndex(init, c);
      assert s == init + [s[|s| - 1]];
      assert c in s <==> c in init;
      if r.Some? then
        assert s[r.value] == init[r.value];
        assert s[r.value + 1..] == init[r.value + 1..] + [s[|s| - 1]];
        r
      else r
  }

  /** Reads `name <email>` back into its two parts: the email is what lies
      between the last '<' and a final '>', the name what precedes the space
      before that '<'. */
  function ParseAddress(s: string): (r: Option<(string, string)>)
    ensures r.Some? ==> FormatAddress(r.value.0, r.value.1) == s && '<' !in r.value.1
  {
    if s == [] || s[|s| - 1] != '>' then None
    else
      match LastIndex(s[..|s| - 1], '<')
      case None => None
      case Some(k) =>
        if k == 0 || s[k - 1] != ' ' then None
        else
          var name, email := s[..k - 1], s[k + 1..|s| - 1];
          assert s == name + " <" + email + ">";
          assert email == s[..|s| - 1][k + 1..];
          Some((name, email))
  }

  /** Reading back a formatted address gives the name and email it was made
      from, whenever the email holds no '<'. */
  lemma AddressRoundTrip(name: string, email: string)
    requires '<' !in email
    ensures ParseAddress(FormatAddress(name, email)) == Some((name, email))
  {
    var s := FormatAddress(name, email);
    var k := |name| + 1;
    assert s[..|s| - 1] == (name + " ") + ['<'] + email;
    LastIndexAfter(name + " ", '<', email);
    assert s[k - 1] == ' ';
    assert s[..k - 1] == name && s[k + 1..|s| - 1] == email;
  }

  /** The last `c` of u + [c] + t is the one after u when t holds none. */
  lemma {:induction false} LastIndexAfter(u: string, c: char, t: string)
    requires c !in t
    ensures LastIndex(u + [c] + t, c) == Some(|u|)
  {
    var s := u + [c] + t;
    if t != [] {
      var t' := t[..|t| - 1];
      assert s[|s| - 1] == t[|t| - 1] && t[|t| - 1] in t;
      assert c !in t' by { forall i | 0 <= i < |t'| ensures t'[i] != c { assert t'[i] == t[i]; } }
      assert s[..|s| - 1] == u + [c] + t';
      LastIndexAfter(u, c, t');
    }
  }

  /** The email of an address: what lies between the last '<' and a final
      '>', whatever precedes the '<' (`Name <a@b>`, `Name<a@b>`, `<a@b>`);
      a text without that shape is a bare address and stands for itself. */
  function EmailOf(e: string): (r: string)
    ensures Bracketed(e) ==> '<' !in r && |r| + 2 <= |e| && e[|e| - |r| - 2..] == "<" + r + ">"
    ensures !Bracketed(e) ==> r == e
  {
    if e == [] || e[|e| - 1] != '>' then e
    else
      match LastIndex(e[..|e| - 1], '<')
      case None => e
      case Some(k) =>
        var r := e[k + 1..|e| - 1];
        assert r == e[..|e| - 1][k + 1..];
        assert e[|e| - |r| - 2..] == "<" + r + ">" by {
          assert e[|e| - |r| - 2..] == [e[k]] + e[k + 1..|e| - 1] + [e[|e| - 1]];
        }
        r
  }

  /** `e` ends in '>' and has a '<' before it. */
  predicate Bracketed(e: string) {
    e != [] && e[|e| - 1] == '>' && '<' in e[..|e| - 1]
  }

  /** An address ending in `<email>` stands for that email, whatever name
      or spacing comes before it. */
  lemma BracketedEmail(u: string, email: string)
    requires '<' !in email
    ensures EmailOf(u + "<" + email + ">") == email
  {
    var e := u + "<" + email + ">";
    assert e[..|e| - 1] == u + ['<'] + email;
    LastIndexAfter(u, '<', email);
    assert e[|u| + 1..|e| - 1] == email;
  }

  /** A bare address that does not end with '>' stands for itself. */
  lemma BareEmail(email: string)
    requires email == [] || email[|email| - 1] != '>'
    ensures EmailOf(email) == email
  {
  }

  /** The address a Cc entry stands for: the email of its text without
      surrounding whitespace. */
  function AddressOf(entry: string): (r: string)
    ensures var t := Strip(entry);
      Bracketed(t) ==> '<' !in r && |r| + 2 <= |t| && t[|t| - |r| - 2..] == "<" + r + ">"
    ensures !Bracketed(Strip(entry)) ==> r == Strip(entry)
  {
    EmailOf(Strip(entry))
  }

  /** The entries of a Cc header: its comma-separated parts. */
  function CcEntries(cc: string): (r: seq<string>)
    ensures |r| >= 1 && forall k :: 0 <= k < |r| ==> ',' !in r[k]
    ensures Join(r, ',') == cc
  {
    JoinSplit(cc, ',');
    Split(cc, ',')
  }

  /** The entries that do not stand for `self`, in their original order. */
  function WithoutSelf(entries: seq<string>, self: string): (r: seq<string>)
    ensures forall e :: e in r <==> e in entries && AddressOf(e) != self
    ensures |r| <= |entries|
  {
    if entries == [] then []
    else
      var rest := WithoutSelf(entries[1..], self);
      assert forall e :: e in entries <==> e == entries[0] || e in entries[1..];
      if AddressOf(entries[0]) == self then rest else [entries[0]] + rest
  }

  /** Filtering a list is filtering its two parts: order and repetitions
      are kept. */
  lemma {:induction false} WithoutSelfAppend(a: seq<string>, b: seq<string>, self: string)
    ensures WithoutSelf(a + b, self) == WithoutSelf(a, self) + WithoutSelf(b, self)
  {
    if a == [] {
      assert a + b == b;
    } else {
      assert (a + b)[0] == a[0] && (a + b)[1..] == a[1..] + b;
      WithoutSelfAppend(a[1..], b, self);
    }
  }

  /** A single entry is kept exactly when it does not stand for `self`. */
  lemma WithoutSelfOne(e: string, self: string)
    ensures WithoutSelf([e], self) == if AddressOf(e) == self then [] else [e]
  {
    assert [e][1..] == [];
  }

  /** The Cc of the reply: present exactly when the original has one, and
      then the original's entries less those that are `self`. */
  function ReplyCc(original: Headers, self: string): (r: Option<seq<string>>)
    ensures r.Some? <==> Get(original, "Cc").Some?
    ensures r.Some? ==> forall e :: e in r.value <==> e in CcEntries(Get(original, "Cc").value) && AddressOf(e) != self
  {
    match Get(original, "Cc")
    case None => None
    case Some(cc) => Some(WithoutSelf(CcEntries(cc), self))
  }

  /** The subject of a reply: "Re: " and the subject replied to. */
  function ReplySubject(subject: string): (r: string)
    ensures StartsWith(r, "Re: ") && r[4..] == subject
  {
    var r := "Re: " + subject;
    assert r[..4] == "Re: " && r[4..] == subject;
    r
  }

  /** get_reply_msg: the reply comes from the operator, goes to the
      original sender, carries a Cc exactly when the original does (its
      entries less any that are the operator's own address) and is titled
      "Re: " and the original subject, bracket tags and all. */
  function ReplyMsg(original: Headers, fromName: string, fromEmail: string): (r: Result<Reply, Error>)
    ensures r.Ok? <==> Get(original, "From").Some? && Get(original, "Subject").Some?
    ensures Get(original, "From").None? ==> r == Err(MissingHeader("From"))
    ensures Get(original, "From").Some? && Get(original, "Subject").None? ==> r == Err(MissingHeader("Subject"))
    ensures r.Ok? ==>
      && r.value.from == FormatAddress(fromName, fromEmail)
      && r.value.to == Get(original, "From").value
      && StartsWith(r.value.subject, "Re: ") && r.value.subject[4..] == Get(original, "Subject").value
      && (r.value.cc.Some? <==> Get(original, "Cc").Some?)
    ensures r.Ok? && r.value.cc.Some? ==> forall e :: e in r.value.cc.value <==>
      e in CcEntries(Get(original, "Cc").value) && AddressOf(e) != fromEmail
  {
    match (Get(original, "From"), Get(original, "Subject"))
    case (None, _) => Err(MissingHeader("From"))
    case (_, None) => Err(MissingHeader("Subject"))
    case (Some(from), Some(subject)) =>
      Ok(Reply(FormatAddress(fromName, fromEmail), from, ReplyCc(original, fromEmail), ReplySubject(subject)))
  }

  /** Every Cc entry that names the operator's email is dropped: whether it
      is written `Name <email>`, `Name<email>` or `<email>`, or is the bare
      email itself, with any whitespace around it. */
  lemma {:induction false} ReplyDropsSelf(original: Headers, fromName: string, fromEmail: string, entry: string)
    requires ReplyMsg(original, fromName, fromEmail).Ok? && Get(original, "Cc").Some?
    requires '<' !in fromEmail && (fromEmail == [] || fromEmail[|fromEmail| - 1] != '>')
    requires (exists u :: Strip(entry) == u + "<" + fromEmail + ">") || Strip(entry) == fromEmail
    ensures entry !in ReplyMsg(original, fromName, fromEmail).value.cc.value
  {
    if Strip(entry) == fromEmail {
      BareEmail(fromEmail);
    } else {
      var u :| Strip(entry) == u + "<" + fromEmail + ">";
      BracketedEmail(u, fromEmail);
    }
    assert AddressOf(entry) == fromEmail;
  }

  /** Whatever the case of its name in the mail, the first Cc field of the
      original is the one the reply's Cc is made from. */
  lemma ReplyCcFromField(fields: seq<(string, string)>, fromName: string, fromEmail: string, i: nat)
    requires ReplyMsg(HeadersOf(fields), fromName, fromEmail).Ok?
    requires FirstNamed(fields, i, "Cc")
    ensures ReplyMsg(HeadersOf(fields), fromName, fromEmail).value.cc == Some(WithoutSelf(CcEntries(fields[i].1), fromEmail))
  {
    GetField(fields, "Cc");
  }

  /** A mail whose Cc header is written `CC:` gets a reply with a Cc. */
  lemma ReplyUpperCaseCc()
    ensures var fields := [("From", "a <a@x>"), ("Subject", "s"), ("CC", "b@y")];
      ReplyMsg(HeadersOf(fields), "n", "e@z").Ok? && ReplyMsg(HeadersOf(fields), "n", "e@z").value.cc.Some?
  {
    var fields := [("From", "a <a@x>"), ("Subject", "s"), ("CC", "b@y")];
    HeaderNames();
    CcAnyCase();
    assert FirstNamed(fields, 0, "From");
    assert FirstNamed(fields, 1, "Subject") by { assert Lower("From") != Lower("Subject"); }
    GetField(fields, "From");
    GetField(fields, "Subject");
    GetField(fields, "Cc");
    assert Lower(fields[2].0) == Lower("Cc");
  }

  /** The reply's From reads back as the operator's name and email. */
  lemma ReplyFromRoundTrip(original: Headers, fromName: string, fromEmail: string)
    requires ReplyMsg(original, fromName, fromEmail).Ok?
    requires '<' !in fromEmail
    ensures ParseAddress(ReplyMsg(original, fromName, fromEmail).value.from) == Some((fromName, fromEmail))
  {
    AddressRoundTrip(fromName, fromEmail);
  }

  /** The headers of the mail test_reply_msg replies to, keyed by their
      lower-cased names. */
  predicate IsTestMail(original: Headers) {
    original == map[
      "content-type" := "text/plain; charset=\"utf-8\"", "mime-version" := "1.0",
      "content-transfer-encoding" := "7bit", "subject" := "[1/7] foo",
      "from" := "Dino Dinosaurus <dino@example.com>", "x-patchwork-id" := "12345",
      "message-id" := "<11111@example.com>", "to" := "list@example.com",
      "date" := "Thu,  10 Feb 2011 15:23:31 +0300"]
  }

  /** test_reply_msg: the reply to the test mail, which has no Cc. */
  lemma ReplyExample(original: Headers)
    requires IsTestMail(original)
    ensures ReplyMsg(original, "Timo Testi", "test@example.com")
      == Ok(Reply("Timo Testi <test@example.com>", "Dino Dinosaurus <dino@example.com>", None, "Re: [1/7] foo"))
  {
    TestMailHeaders(original);
    ReplyWithoutCc(original, "Timo Testi", "test@example.com");
    TestReplyText();
  }

  lemma TestReplyText()
    ensures "Re: " + "[1/7] foo" == "Re: [1/7] foo"
    ensures FormatAddress("Timo Testi", "test@example.com") == "Timo Testi <test@example.com>"
  {
  }

  /** A reply to a mail with From and Subject but no Cc. */
  lemma ReplyWithoutCc(original: Headers, fromName: string, fromEmail: string)
    requires Get(original, "From").Some? && Get(original, "Subject").Some? && Get(original, "Cc").None?
    ensures ReplyMsg(original, fromName, fromEmail)
      == Ok(Reply(FormatAddress(fromName, fromEmail), Get(original, "From").value, None, "Re: " + Get(original, "Subject").value))
  {
  }

  lemma TestMailHeaders(original: Headers)
    requires IsTestMail(original)
    ensures Get(original, "From") == Some("Dino Dinosaurus <dino@example.com>")
    ensures Get(original, "Subject") == Some("[1/7] foo")
    ensures Get(original, "Cc").None?
  {
    TestMailFrom(original);
    TestMailSubject(original);
    TestMailNoCc(original);
  }

  lemma TestMailFrom(original: Headers)
    requires IsTestMail(original)
    ensures Get(original, "From") == Some("Dino Dinosaurus <dino@example.com>")
  {
    LowerFrom();
    assert original["from"] == "Dino Dinosaurus <dino@example.com>";
  }

  lemma TestMailSubject(original: Headers)
    requires IsTestMail(original)
    ensures Get(original, "Subject") == Some("[1/7] foo")
  {
    LowerSubject();
    assert original["subject"] == "[1/7] foo";
  }

  lemma TestMailNoCc(original: Headers)
    requires IsTestMail(original)
    ensures Get(original, "Cc").None?
  {
    LowerCc();
    assert "cc" !in original;
  }

  /** The lower-cased names of the headers a reply reads. */
  lemma HeaderNames()
    ensures Lower("From") == "from" && Lower("Subject") == "subject" && Lower("Cc") == "cc"
  {
    LowerFrom();
    LowerSubject();
    LowerCc();
  }

  lemma LowerFrom()
    ensures Lower("From") == "from"
  {
    assert "From" == ['F'] + "rom";
    LowerCons('F', "rom");
    LowerNoCapitals("rom");
    assert ('F' as int + 32) as char == 'f';
    assert "from" == ['f'] + "rom";
  }

  lemma LowerSubject()
    ensures Lower("Subject") == "subject"
  {
    assert "Subject" == ['S'] + "ubject";
    LowerCons('S', "ubject");
    LowerNoCapitals("ubject");
    assert ('S' as int + 32) as char == 's';
    assert "subject" == ['s'] + "ubject";
  }

  lemma LowerCc()
    ensures Lower("Cc") == "cc"
  {
    assert "Cc" == ['C'] + "c";
    LowerCons('C', "c");
    LowerNoCapitals("c");
    assert ('C' as int + 32) as char == 'c';
    assert "cc" == ['c'] + "c";
  }

  /** A Cc header spelled `CC` or `cc` is the same header. */
  lemma CcAnyCase()
    ensures Lower("CC") == Lower("Cc") && Lower("cc") == Lower("Cc")
  {
  }
}
