/** `write_domain_counts`: tally users by the suffix of their email domain, in order
    of first occurrence, and report one `[Domain, count]` row per suffix after a
    header row. The rows are returned instead of being written to a CSV file. */
module DomainCounts {
  import opened Wrappers
  import opened Text
  import opened Users

  const Header: Row := [Text("Domain"), Text("count")]

  /** `email.split('@')[1]`: the text between the first "@" and the next "@", or the
      end of the email when there is no second "@". */
  function DomainSegment(email: string): (segment: string)
    requires '@' in email
    ensures '@' !in segment
    ensures var rest := email[FirstIndex(email, '@') + 1..];
            segment == rest[..FirstIndex(rest, '@')]
  {
    SplitOn(email, '@')[1]
  }

  /** `email.split('@')[1].rsplit('.', 1)[-1]`: the text after the last "." of the
      domain segment, or the whole segment when it has no ".". */
  function DomainSuffix(email: string): (suffix: string)
    requires '@' in email
    ensures var segment := DomainSegment(email);
      && '.' !in suffix
      && EndsWith(segment, suffix)
      && ('.' in segment ==> segment[|segment| - |suffix| - 1] == '.')
      && ('.' !in segment ==> suffix == segment)
  {
    var parts := RSplitOnce(DomainSegment(email), '.');
    parts[|parts| - 1]
  }

  /** The suffixes of the users whose email holds an "@", in input order; the
      other users contribute nothing. */
  function Suffixes(users: seq<User>): (suffixes: seq<string>)
    ensures |suffixes| <= |users|
    ensures forall i :: 0 <= i < |suffixes| ==> '.' !in suffixes[i]
  {
    if users == [] then []
    else
      var email := EmailOf(users[|users| - 1]);
      Suffixes(users[..|users| - 1]) + (if '@' in email then [DomainSuffix(email)] else [])
  }

  /** Number of users whose email holds an "@". */
  function AddressCount(users: seq<User>): (n: nat)
    ensures n <= |users|
  {
    if users == [] then 0
    else AddressCount(users[..|users| - 1]) + (if '@' in EmailOf(users[|users| - 1]) then 1 else 0)
  }

  /** Python's `Counter` as the script uses it: counts per key, keys kept in the order
      in which they were first counted. */
  datatype Counter = Counter(keys: seq<string>, counts: map<string, nat>) {

    /** Keys are distinct, the ordered keys are exactly the counted ones, and every
        count is at least 1. */
    ghost predicate Valid() {
      && Distinct(keys)
      && (forall k :: k in counts <==> k in keys)
      && (forall k :: k in counts ==> counts[k] >= 1)
    }

    /** The count of `key`; a key never counted reads as 0. */
    function Get(key: string): nat {
      if key in counts then counts[key] else 0
    }

    /** `counter[key] += 1`: one more for `key`, which joins the end of the key order
        if it is new; nothing else changes. */
    function Add(key: string): (c: Counter)
      requires Valid()
      ensures c.Valid()
      ensures c.Get(key) == Get(key) + 1
      ensures forall k :: k != key ==> c.Get(k) == Get(k)
      ensures c.keys == if key in keys then keys else keys + [key]
    {
      if key in counts then Counter(keys, counts[key := counts[key] + 1])
      else Counter(keys + [key], counts[key := 1])
    }
  }

  /** The sum of the counts of `keys`. */
  function SumCounts(keys: seq<string>, counts: map<string, nat>): nat
    requires forall i :: 0 <= i < |keys| ==> keys[i] in counts
  {
    if keys == [] then 0 else SumCounts(keys[..|keys| - 1], counts) + counts[keys[|keys| - 1]]
  }

  /** The counter after counting `s` from the start, one key at a time. */
  function TallyOf(s: seq<string>): (c: Counter)
    ensures c.Valid()
  {
    if s == [] then Counter([], map[]) else TallyOf(s[..|s| - 1]).Add(s[|s| - 1])
  }

  /** Changing the count of a key outside `keys` leaves their sum alone. */
  lemma {:induction false} SumFrame(keys: seq<string>, counts: map<string, nat>, key: string, v: nat)
    requires forall i :: 0 <= i < |keys| ==> keys[i] in counts
    requires key !in keys
    ensures SumCounts(keys, counts[key := v]) == SumCounts(keys, counts)
  {
    if keys != [] { SumFrame(keys[..|keys| - 1], counts, key, v); }
  }

  /** One more for a key that occurs once in `keys` adds one to their sum. */
  lemma {:induction false} SumBump(keys: seq<string>, counts: map<string, nat>, key: string)
    requires forall i :: 0 <= i < |keys| ==> keys[i] in counts
    requires Distinct(keys) && key in keys
    ensures SumCounts(keys, counts[key := counts[key] + 1]) == SumCounts(keys, counts) + 1
  {
    var init := keys[..|keys| - 1];
    assert keys == init + [keys[|keys| - 1]];
    if keys[|keys| - 1] == key {
      SumFrame(init, counts, key, counts[key] + 1);
    } else {
      SumBump(init, counts, key);
    }
  }

  /** A key is counted exactly when it occurs in `s`, and its count is the number of
      times it occurs. */
  lemma {:induction false} TallyCounts(s: seq<string>)
    ensures forall k :: k in TallyOf(s).counts <==> k in s
    ensures forall k :: TallyOf(s).Get(k) == multiset(s)[k]
  {
    if s != [] {
      var init := s[..|s| - 1];
      assert s == init + [s[|s| - 1]];
      TallyCounts(init);
    }
  }

  /** Keys listed in the order of their first occurrence in `s`. */
  ghost predicate InFirstOccurrenceOrder(keys: seq<string>, s: seq<string>) {
    forall p, q :: 0 <= p < q < |keys| ==> FirstIndex(s, keys[p]) < FirstIndex(s, keys[q])
  }

  /** Appending to `s` keeps keys that already occur in it in first-occurrence order. */
  lemma OrderExtend(keys: seq<string>, s: seq<string>, x: string)
    requires InFirstOccurrenceOrder(keys, s)
    requires forall i :: 0 <= i < |keys| ==> keys[i] in s
    ensures InFirstOccurrenceOrder(keys, s + [x])
    ensures forall i :: 0 <= i < |keys| ==> FirstIndex(s + [x], keys[i]) < |s|
  {
    forall i | 0 <= i < |keys| ensures FirstIndex(s + [x], keys[i]) == FirstIndex(s, keys[i]) {
      FirstIndexPrefix(s, [x], keys[i]);
    }
  }

  /** A key first seen at the end of `s + [x]` can follow the keys of `s`. */
  lemma OrderExtendNew(keys: seq<string>, s: seq<string>, x: string)
    requires InFirstOccurrenceOrder(keys, s)
    requires forall i :: 0 <= i < |keys| ==> keys[i] in s
    requires x !in s
    ensures InFirstOccurrenceOrder(keys + [x], s + [x])
  {
    OrderExtend(keys, s, x);
    FirstIndexAfter(s, x, []);
    assert s + [x] + [] == s + [x];
    var ks := keys + [x];
    forall p, q | 0 <= p < q < |ks| ensures FirstIndex(s + [x], ks[p]) < FirstIndex(s + [x], ks[q]) {
      if q == |keys| {
        assert ks[p] == keys[p];
      } else {
        assert ks[p] == keys[p] && ks[q] == keys[q];
      }
    }
  }

  /** Counting `x` after `s` keeps the keys in first-occurrence order. */
  lemma AddKeepsOrder(c: Counter, s: seq<string>, x: string)
    requires c.Valid() && InFirstOccurrenceOrder(c.keys, s)
    requires forall k :: k in c.keys <==> k in s
    ensures InFirstOccurrenceOrder(c.Add(x).keys, s + [x])
  {
    assert forall i :: 0 <= i < |c.keys| ==> c.keys[i] in s;
    if x in c.keys {
      OrderExtend(c.keys, s, x);
    } else {
      OrderExtendNew(c.keys, s, x);
    }
  }

  /** Keys come in the order of their first occurrence in `s`. */
  lemma {:induction false} TallyOrder(s: seq<string>)
    ensures InFirstOccurrenceOrder(TallyOf(s).keys, s)
  {
    if s != [] {
      var init, x := s[..|s| - 1], s[|s| - 1];
      assert s == init + [x];
      TallyOrder(init);
      TallyCounts(init);
      AddKeepsOrder(TallyOf(init), init, x);
    }
  }

  /** Counting one more key adds one to the sum of the counts. */
  lemma AddSum(c: Counter, x: string)
    requires c.Valid()
    ensures SumCounts(c.Add(x).keys, c.Add(x).counts) == SumCounts(c.keys, c.counts) + 1
  {
    if x in c.counts {
      SumBump(c.keys, c.counts, x);
    } else {
      var after := c.Add(x);
      assert after.keys[..|after.keys| - 1] == c.keys;
      SumFrame(c.keys, c.counts, x, 1);
    }
  }

  /** The counts add up to the number of keys counted. */
  lemma {:induction false} TallySum(s: seq<string>)
    ensures SumCounts(TallyOf(s).keys, TallyOf(s).counts) == |s|
  {
    if s != [] {
      TallySum(s[..|s| - 1]);
      AddSum(TallyOf(s[..|s| - 1]), s[|s| - 1]);
    }
  }

  /** The first occurrence of an element of `a` is unaffected by what follows `a`. */
  lemma {:induction false} FirstIndexPrefix<T>(a: seq<T>, b: seq<T>, x: T)
    requires x in a
    ensures FirstIndex(a + b, x) == FirstIndex(a, x)
  {
    if a[0] != x {
      assert (a + b)[1..] == a[1..] + b;
      FirstIndexPrefix(a[1..], b, x);
    }
  }

  /** One suffix per user whose email holds an "@". */
  lemma {:induction false} SuffixesLength(users: seq<User>)
    ensures |Suffixes(users)| == AddressCount(users)
  {
    if users != [] { SuffixesLength(users[..|users| - 1]); }
  }

  /** The counts of the tally add up to the number of users whose email holds an "@". */
  lemma TallyTotal(users: seq<User>)
    ensures var c := TallyOf(Suffixes(users));
      SumCounts(c.keys, c.counts) == AddressCount(users)
  {
    TallySum(Suffixes(users));
    SuffixesLength(users);
  }

  /** Counting one more user extends the suffixes by that user's suffix, if any. */
  lemma SuffixesStep(users: seq<User>, n: nat)
    requires n < |users|
    ensures var email := EmailOf(users[n]);
      Suffixes(users[..n + 1]) == Suffixes(users[..n]) + (if '@' in email then [DomainSuffix(email)] else [])
  {
    assert users[..n + 1][..n] == users[..n];
  }

  /** Suffixes distribute over concatenation, so input order is kept. */
  lemma {:induction false} SuffixesAppend(a: seq<User>, b: seq<User>)
    ensures Suffixes(a + b) == Suffixes(a) + Suffixes(b)
  {
    if b == [] {
      assert a + b == a;
    } else {
      var init := b[..|b| - 1];
      assert (a + b)[..|a + b| - 1] == a + init;
      SuffixesAppend(a, init);
    }
  }

  /** A single user contributes its suffix when its email holds an "@", and nothing
      otherwise. */
  lemma SuffixesSingle(u: User)
    ensures Suffixes([u]) == if '@' in EmailOf(u) then [DomainSuffix(EmailOf(u))] else []
  {
    assert [u][..0] == [];
  }

  /** A user whose email holds an "@" adds its suffix at the end. */
  lemma SuffixesPush(users: seq<User>, u: User, x: string)
    requires '@' in EmailOf(u) && DomainSuffix(EmailOf(u)) == x
    ensures Suffixes(users + [u]) == Suffixes(users) + [x]
  {
    assert (users + [u])[..|users|] == users;
  }

  /** Counting one more key is `Add`. */
  lemma TallyStep(s: seq<string>, x: string)
    ensures TallyOf(s + [x]) == TallyOf(s).Add(x)
  {
    assert (s + [x])[..|s|] == s;
  }

  /** The domain segment of `local@rest` is `rest` up to its first "@". */
  lemma {:induction false} SegmentOf(local: string, rest: string)
    requires '@' !in local
    ensures '@' in local + "@" + rest
    ensures DomainSegment(local + "@" + rest) == rest[..FirstIndex(rest, '@')]
  {
    var email := local + "@" + rest;
    assert email == local + ['@'] + rest;
    FirstIndexAfter(local, '@', rest);
    assert email[|local| + 1..] == rest;
  }

  /** A domain with no "." is its own suffix. */
  lemma {:induction false} SuffixWithoutDot(local: string, domain: string)
    requires '@' !in local && '@' !in domain && '.' !in domain
    ensures '@' in local + "@" + domain
    ensures DomainSuffix(local + "@" + domain) == domain
  {
    SegmentOf(local, domain);
    assert FirstIndex(domain, '@') == |domain|;
  }

  /** In `name.tld` with no "." in `tld`, the only dot-free ending that follows a "."
      is `tld`. */
  lemma DotFreeEnding(name: string, tld: string, ending: string)
    requires '.' !in tld && '.' !in ending
    requires EndsWith(name + "." + tld, ending)
    requires |ending| < |name + "." + tld|
    requires (name + "." + tld)[|name + "." + tld| - |ending| - 1] == '.'
    ensures ending == tld
  {
    var rest := name + "." + tld;
    assert rest[|name|] == '.';
    assert |ending| == |tld|;
    assert rest[|rest| - |tld|..] == tld;
  }

  /** A domain segment `name.tld`, with no "." in `tld`, has suffix `tld`. */
  lemma SuffixOfSegment(email: string, name: string, tld: string)
    requires '@' in email && '.' !in tld
    requires DomainSegment(email) == name + "." + tld
    ensures DomainSuffix(email) == tld
  {
    assert (name + "." + tld)[|name|] == '.';
    DotFreeEnding(name, tld, DomainSuffix(email));
  }

  /** With a single "@", the domain segment is everything after it. */
  lemma SegmentOfSingleAt(local: string, domain: string)
    requires '@' !in local && '@' !in domain
    ensures '@' in local + "@" + domain
    ensures DomainSegment(local + "@" + domain) == domain
  {
    SegmentOf(local, domain);
    assert FirstIndex(domain, '@') == |domain|;
    assert domain[..|domain|] == domain;
  }

  /** The suffix of `local@name.tld` is `tld` when `tld` holds no "." and the domain
      no "@"; `name` may itself hold dots. */
  lemma {:induction false} SuffixAfterLastDot(local: string, name: string, tld: string)
    requires '@' !in local && '@' !in name && '@' !in tld && '.' !in tld
    ensures '@' in local + "@" + name + "." + tld
    ensures DomainSuffix(local + "@" + name + "." + tld) == tld
  {
    var rest := name + "." + tld;
    var email := local + "@" + rest;
    assert email == local + "@" + name + "." + tld;
    SegmentOfSingleAt(local, rest);
    SuffixOfSegment(email, name, tld);
  }

  /** A second "@" ends the domain segment. */
  lemma {:induction false} SegmentStopsAtSecondAt(local: string, domain: string, more: string)
    requires '@' !in local && '@' !in domain
    ensures '@' in local + "@" + domain + "@" + more
    ensures DomainSegment(local + "@" + domain + "@" + more) == domain
  {
    var rest := domain + "@" + more;
    assert local + "@" + domain + "@" + more == local + "@" + rest;
    SegmentOf(local, rest);
    assert rest == domain + ['@'] + more;
    FirstIndexAfter(domain, '@', more);
  }

  /** Nothing after the "@": the suffix is empty. */
  lemma ExampleEmptyDomain()
    ensures DomainSuffix("a@") == ""
  {
    var email := "a" + "@" + "";
    assert email == "a@";
    SuffixWithoutDot("a", "");
    assert DomainSuffix(email) == "";
  }

  /** A trailing ".": the suffix is empty. */
  lemma ExampleTrailingDot()
    ensures DomainSuffix("a@x.") == ""
  {
    var email := "a" + "@" + "x" + "." + "";
    assert email == "a@x.";
    SuffixAfterLastDot("a", "x", "");
    assert DomainSuffix(email) == "";
  }

  /** A domain with no ".": the whole domain is the suffix. */
  lemma ExampleNoDot()
    ensures DomainSuffix("a@localhost") == "localhost"
  {
    var email := "a" + "@" + "localhost";
    assert email == "a@localhost";
    SuffixWithoutDot("a", "localhost");
    assert DomainSuffix(email) == "localhost";
  }

  /** Only the part after the last "." counts. */
  lemma ExampleSubdomain()
    ensures DomainSuffix("user@sub.example.com") == "com"
  {
    var email := "user" + "@" + "sub.example" + "." + "com";
    assert email == "user@sub.example.com";
    SuffixAfterLastDot("user", "sub.example", "com");
    assert DomainSuffix(email) == "com";
  }

  /** A second "@" cuts the domain short: the segment is "b", which has no ".". */
  lemma ExampleSecondAt()
    ensures DomainSuffix("a@b@c.d") == "b"
  {
    var email := "a" + "@" + "b" + "@" + "c.d";
    assert email == "a@b@c.d";
    SegmentStopsAtSecondAt("a", "b", "c.d");
    assert DomainSuffix(email) == "b";
  }

  /** The suffix of `local@mail.tld` is `tld`. */
  lemma MailSuffix(local: string, tld: string)
    requires '@' !in local && '@' !in tld && '.' !in tld
    ensures '@' in local + "@mail." + tld
    ensures DomainSuffix(local + "@mail." + tld) == tld
  {
    assert local + "@mail." + tld == local + "@" + "mail" + "." + tld;
    SuffixAfterLastDot(local, "mail", tld);
  }

  /** One user whose email holds an "@" yields just its suffix. */
  lemma SuffixesOne(u: User, x: string)
    requires '@' in EmailOf(u) && DomainSuffix(EmailOf(u)) == x
    ensures Suffixes([u]) == [x]
  {
    SuffixesPush([], u, x);
    assert [] + [u] == [u];
  }

  /** A second user whose email holds an "@" adds its suffix after the first's. */
  lemma SuffixesPushTwo(u1: User, u2: User, x: string)
    requires '@' in EmailOf(u2) && DomainSuffix(EmailOf(u2)) == x
    ensures Suffixes([u1, u2]) == Suffixes([u1]) + [x]
  {
    SuffixesPush([u1], u2, x);
    assert [u1] + [u2] == [u1, u2];
  }

  /** A third user whose email holds an "@" adds its suffix after the first two's. */
  lemma SuffixesPushThree(u1: User, u2: User, u3: User, x: string)
    requires '@' in EmailOf(u3) && DomainSuffix(EmailOf(u3)) == x
    ensures Suffixes([u1, u2, u3]) == Suffixes([u1, u2]) + [x]
  {
    SuffixesPush([u1, u2], u3, x);
    assert [u1, u2] + [u3] == [u1, u2, u3];
  }

  /** `[x] + [x] + [y]` is the display `[x, x, y]`. */
  lemma ThreeDisplay<T>(x: T, y: T)
    ensures [x] + [x] + [y] == [x, x, y]
  {
  }

  /** Two users on one suffix and a third on another yield those suffixes in order. */
  lemma ExampleSuffixes(u1: User, u2: User, u3: User, x: string, y: string)
    requires '@' in EmailOf(u1) && DomainSuffix(EmailOf(u1)) == x
    requires '@' in EmailOf(u2) && DomainSuffix(EmailOf(u2)) == x
    requires '@' in EmailOf(u3) && DomainSuffix(EmailOf(u3)) == y
    ensures Suffixes([u1, u2, u3]) == [x, x, y]
  {
    SuffixesOne(u1, x);
    SuffixesPushTwo(u1, u2, x);
    SuffixesPushThree(u1, u2, u3, y);
    ThreeDisplay(x, y);
  }

  /** Two users on suffix `x`, then one on another suffix `y`, are tallied as `x`
      twice, then `y` once. */
  lemma TallyTwoThenOne(u1: User, u2: User, u3: User, x: string, y: string)
    requires x != y
    requires '@' in EmailOf(u1) && DomainSuffix(EmailOf(u1)) == x
    requires '@' in EmailOf(u2) && DomainSuffix(EmailOf(u2)) == x
    requires '@' in EmailOf(u3) && DomainSuffix(EmailOf(u3)) == y
    ensures TallyOf(Suffixes([u1, u2, u3])) == Counter([x, y], map[x := 2, y := 1])
  {
    ExampleSuffixes(u1, u2, u3, x, y);
    TallyRepeatThenNew(x, y);
  }

  /** An email on `mail.com` has suffix "com". */
  lemma MailComSuffix(local: string)
    requires '@' !in local
    ensures '@' in local + "@mail.com" && DomainSuffix(local + "@mail.com") == "com"
  {
    var tld := "com";
    assert local + "@mail.com" == local + "@mail." + tld;
    MailSuffix(local, tld);
  }

  /** An email on `mail.org` has suffix "org". */
  lemma MailOrgSuffix(local: string)
    requires '@' !in local
    ensures '@' in local + "@mail.org" && DomainSuffix(local + "@mail.org") == "org"
  {
    var tld := "org";
    assert local + "@mail.org" == local + "@mail." + tld;
    MailSuffix(local, tld);
  }

  /** An email with no "@" adds no suffix. */
  lemma NoAtSkipped(users: seq<User>, u: User)
    requires '@' !in EmailOf(u)
    ensures Suffixes(users + [u]) == Suffixes(users)
    ensures AddressCount(users + [u]) == AddressCount(users)
  {
    assert (users + [u])[..|users|] == users;
  }

  /** One key counted once. */
  lemma TallySingle(x: string)
    ensures TallyOf([x]) == Counter([x], map[x := 1])
  {
    TallyStep([], x);
    assert [] + [x] == [x];
  }

  /** A repeated key keeps one place and is counted twice. */
  lemma TallyRepeat(x: string)
    ensures TallyOf([x, x]) == Counter([x], map[x := 2])
  {
    TallySingle(x);
    TallyStep([x], x);
    assert [x] + [x] == [x, x];
    assert map[x := 1][x := 2] == map[x := 2];
  }

  /** A repeated key and then a new one: two places, in first-seen order. */
  lemma TallyRepeatThenNew(x: string, y: string)
    requires x != y
    ensures TallyOf([x, x, y]) == Counter([x, y], map[x := 2, y := 1])
  {
    var s2, s3 := [x, x], [x, x, y];
    assert s3[..2] == s2;
    TallyRepeat(x);
    TallyStep(s2, y);
    assert s2 + [y] == s3;
  }

  /** Two different keys are two places, however alike they are apart from case. */
  lemma TallyTwoKeys(x: string, y: string)
    requires x != y
    ensures TallyOf([x, y]) == Counter([x, y], map[x := 1, y := 1])
  {
    TallySingle(x);
    TallyStep([x], y);
    assert [x] + [y] == [x, y];
    assert y !in [x];
    assert Counter([x], map[x := 1]).Add(y) == Counter([x] + [y], map[x := 1][y := 1]);
  }

  /** Keys are compared with case: "com" and "COM" are two rows. */
  lemma CaseSensitiveKeys()
    ensures TallyOf(["com", "COM"]).keys == ["com", "COM"]
  {
    TallyTwoKeys("com", "COM");
  }

  /** ... and both are printed "Com". */
  lemma CaseVariantsPrintAlike()
    ensures Capitalize("com") == "Com" && Capitalize("COM") == "Com"
  {
  }

  /** The row written for one key of the tally. */
  function DomainRow(key: string, count: nat): Row {
    [Text(Capitalize(key)), Int(count)]
  }

  /** The counting loop: one `Add` per user whose email holds an "@". */
  method TallyDomains(users: seq<User>) returns (counter: Counter)
    ensures counter == TallyOf(Suffixes(users))
  {
    counter := Counter([], map[]);
    ghost var counted: seq<string> := [];
    for n := 0 to |users|
      invariant counted == Suffixes(users[..n])
      invariant counter == TallyOf(counted)
    {
      SuffixesStep(users, n);
      var email := EmailOf(users[n]);
      if '@' in email {
        var suffix := DomainSuffix(email);
        TallyStep(counted, suffix);
        counter := counter.Add(suffix);
        counted := counted + [suffix];
      }
    }
    assert users[..|users|] == users;
  }

  /** The writing loop: the header, then one row per key of `counter`, in key order. */
  method CounterRows(counter: Counter) returns (rows: seq<Row>)
    requires counter.Valid()
    ensures |rows| == 1 + |counter.keys| && rows[0] == Header
    ensures forall p :: 0 <= p < |counter.keys| ==>
      rows[p + 1] == DomainRow(counter.keys[p], counter.counts[counter.keys[p]])
  {
    rows := [Header];
    for p := 0 to |counter.keys|
      invariant |rows| == 1 + p && rows[0] == Header
      invariant forall q :: 0 <= q < p ==>
        rows[q + 1] == DomainRow(counter.keys[q], counter.counts[counter.keys[q]])
    {
      var key := counter.keys[p];
      rows := rows + [DomainRow(key, counter.counts[key])];
    }
  }

  /** Count the users by domain suffix, then write the header and one row per
      suffix, in first-occurrence order, with the suffix capitalized. */
  method WriteDomainCounts(users: seq<User>) returns (rows: seq<Row>)
    ensures var c := TallyOf(Suffixes(users));
      && |rows| == 1 + |c.keys| && rows[0] == Header
      && forall p :: 0 <= p < |c.keys| ==> rows[p + 1] == DomainRow(c.keys[p], c.counts[c.keys[p]])
  {
    var counter := TallyDomains(users);
    rows := CounterRows(counter);
  }

  /** The rows written for "com" counted twice and "org" counted once. */
  lemma ComOrgRows()
    ensures DomainRow("com", 2) == [Text("Com"), Int(2)]
    ensures DomainRow("org", 1) == [Text("Org"), Int(1)]
  {
    assert Capitalize("com") == "Com";
    assert Capitalize("org") == "Org";
  }

  /** The aggregation example: users on `a@mail.com`, `b@mail.com` and `c@mail.org`,
      whatever their local parts, are reported as "Com" twice, then "Org" once. */
  method ExampleDomainCounts(u1: User, u2: User, u3: User, a: string, b: string, c: string)
      returns (rows: seq<Row>)
    requires '@' !in a && '@' !in b && '@' !in c
    requires EmailOf(u1) == a + "@mail.com" && EmailOf(u2) == b + "@mail.com"
    requires EmailOf(u3) == c + "@mail.org"
    ensures |rows| == 3 && rows[0] == Header
    ensures rows[1] == [Text("Com"), Int(2)] && rows[2] == [Text("Org"), Int(1)]
  {
    MailComSuffix(a);
    MailComSuffix(b);
    MailOrgSuffix(c);
    TallyTwoThenOne(u1, u2, u3, "com", "org");
    rows := WriteDomainCounts([u1, u2, u3]);
    var tally := TallyOf(Suffixes([u1, u2, u3]));
    assert rows[1] == DomainRow(tally.keys[0], tally.counts[tally.keys[0]]);
    assert rows[2] == DomainRow(tally.keys[1], tally.counts[tally.keys[1]]);
    ComOrgRows();
  }
}
