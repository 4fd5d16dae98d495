/**
 * Name forms that X.509 name constraints apply to, and the subtree tests of the chain
 * builder (section 4.2.1.10 of RFC 5280), related to suffixes of label and RDN lists.
 */
module Names {
  import opened Options

  datatype Kind = DN | DNS | EMAIL | URI

  datatype Name = Name(kind: Kind, value: string)

  // ----- String functions -----

  /** toLowerCase on the letters A-Z. */
  function Lower(s: string): (r: string)
    ensures |r| == |s|
  {
    seq(|s|, i requires 0 <= i < |s| => if 'A' <= s[i] <= 'Z' then s[i] - 'A' + 'a' else s[i])
  }

  predicate EndsWith(s: string, t: string) {
    |t| <= |s| && s[|s| - |t|..] == t
  }

  function Split(s: string, sep: char): (r: seq<string>)
    ensures r != []
  {
    if s == [] then [""]
    else
      var t := Split(s[1..], sep);
      if s[0] == sep then [""] + t else [[s[0]] + t[0]] + t[1..]
  }

  /** Position of the first occurrence of c, or -1. */
  function IndexOf(s: string, c: char): (r: int)
    ensures -1 <= r < |s|
    ensures r == -1 ==> c !in s
    ensures r >= 0 ==> s[r] == c && c !in s[..r]
  {
    if s == [] then -1
    else if s[0] == c then 0
    else
      var r := IndexOf(s[1..], c);
      assert s == [s[0]] + s[1..];
      assert r >= 0 ==> s[..r + 1] == [s[0]] + s[1..][..r];
      if r == -1 then -1 else r + 1
  }

  predicate IsSpace(c: char) {
    c in " \t\n\r" || c == '\U{B}' || c == '\U{C}' || c == '\U{A0}'
  }

  function TrimStart(s: string): string {
    if s != [] && IsSpace(s[0]) then TrimStart(s[1..]) else s
  }

  function TrimEnd(s: string): string {
    if s != [] && IsSpace(s[|s| - 1]) then TrimEnd(s[..|s| - 1]) else s
  }

  function Trim(s: string): string {
    TrimEnd(TrimStart(s))
  }

  // ----- The subtree tests as the chain builder performs them -----

  predicate DnsIsUnder(leafDns: string, subtree: string) {
    var leaf, sub := Lower(leafDns), Lower(subtree);
    leaf == sub || EndsWith(leaf, "." + sub)
  }

  predicate EmailIsUnder(leafEmail: string, subtree: string) {
    var leaf, sub := Lower(leafEmail), Lower(subtree);
    if '@' in sub then leaf == sub
    else IndexOf(leaf, '@') >= 0 && HostIsUnder(leaf[IndexOf(leaf, '@') + 1..], sub)
  }

  predicate HostIsUnder(leafHost: string, sub: string) {
    if sub != [] && sub[0] == '.' then leafHost == sub[1..] || EndsWith(leafHost, sub)
    else leafHost == sub
  }

  /** The trimmed, non-empty parts of a distinguished name, in order. */
  function TrimmedParts(parts: seq<string>): seq<string> {
    if parts == [] then []
    else (if Trim(parts[0]) == "" then [] else [Trim(parts[0])]) + TrimmedParts(parts[1..])
  }

  function Rdns(dn: string): seq<string> {
    TrimmedParts(Split(dn, ','))
  }

  function Reverse<T>(s: seq<T>): (r: seq<T>)
    ensures |r| == |s|
    ensures forall i :: 0 <= i < |s| ==> r[i] == s[|s| - 1 - i]
  {
    if s == [] then [] else Reverse(s[1..]) + [s[0]]
  }

  predicate DnIsUnder(childDn: string, subtreeDn: string) {
    var child, subtree := Reverse(Rdns(childDn)), Reverse(Rdns(subtreeDn));
    |subtree| <= |child| &&
    forall i :: 0 <= i < |subtree| ==> Lower(child[i]) == Lower(subtree[i])
  }

  predicate MatchesSubtree(leafName: Name, subtree: Name, hostname: string -> Option<string>) {
    leafName.kind == subtree.kind &&
    match subtree.kind
    case DN => DnIsUnder(leafName.value, subtree.value)
    case DNS => DnsIsUnder(leafName.value, subtree.value)
    case EMAIL => EmailIsUnder(leafName.value, subtree.value)
    case URI => hostname(leafName.value).Some? && DnsIsUnder(hostname(leafName.value).value, subtree.value)
  }

  // ----- What they mean: suffixes of lists -----

  ghost predicate IsSuffix<T>(t: seq<T>, s: seq<T>) {
    |t| <= |s| && s[|s| - |t|..] == t
  }

  ghost function Labels(dns: string): seq<string> {
    Split(Lower(dns), '.')
  }

  ghost function Join(parts: seq<string>, sep: char): string
    requires parts != []
  {
    if |parts| == 1 then parts[0] else parts[0] + [sep] + Join(parts[1..], sep)
  }

  lemma {:induction false} JoinSplit(s: string, sep: char)
    ensures Join(Split(s, sep), sep) == s
  {
    if s != [] {
      JoinSplit(s[1..], sep);
      var t := Split(s[1..], sep);
      if s[0] == sep {
        assert ([""] + t)[1..] == t;
      } else {
        assert ([[s[0]] + t[0]] + t[1..])[1..] == t[1..];
      }
    }
  }

  lemma {:induction false} JoinAppend(a: seq<string>, b: seq<string>, sep: char)
    requires a != [] && b != []
    ensures Join(a + b, sep) == Join(a, sep) + [sep] + Join(b, sep)
  {
    if |a| == 1 {
      assert (a + b)[1..] == b;
    } else {
      assert (a + b)[1..] == a[1..] + b;
      JoinAppend(a[1..], b, sep);
    }
  }

  lemma {:induction false} SplitAtSeparator(a: string, b: string, sep: char)
    ensures Split(a + [sep] + b, sep) == Split(a, sep) + Split(b, sep)
  {
    var s := a + [sep] + b;
    if a == [] {
      assert s[1..] == b;
    } else {
      assert s[1..] == a[1..] + [sep] + b;
      SplitAtSeparator(a[1..], b, sep);
    }
  }

  lemma {:induction false} PartsOfEnd(s: string, b: string, sep: char)
    requires s == b || EndsWith(s, [sep] + b)
    ensures IsSuffix(Split(b, sep), Split(s, sep))
  {
    if s != b {
      var a := s[..|s| - |b| - 1];
      assert s == a + [sep] + b;
      SplitAtSeparator(a, b, sep);
    }
  }

  lemma JoinEnd(pre: seq<string>, parts: seq<string>, sep: char)
    requires pre != [] && parts != []
    ensures EndsWith(Join(pre + parts, sep), [sep] + Join(parts, sep))
  {
    JoinAppend(pre, parts, sep);
    assert Join(pre + parts, sep) == Join(pre, sep) + ([sep] + Join(parts, sep));
  }

  lemma {:induction false} EndOfJoined(S: seq<string>, B: seq<string>, sep: char)
    requires B != [] && IsSuffix(B, S)
    ensures Join(S, sep) == Join(B, sep) || EndsWith(Join(S, sep), [sep] + Join(B, sep))
  {
    var pre := S[..|S| - |B|];
    assert S == pre + B;
    if pre != [] { JoinEnd(pre, B, sep); }
  }

  lemma EndOfParts(s: string, b: string, sep: char)
    requires IsSuffix(Split(b, sep), Split(s, sep))
    ensures s == b || EndsWith(s, [sep] + b)
  {
    JoinSplit(s, sep);
    JoinSplit(b, sep);
    EndOfJoined(Split(s, sep), Split(b, sep), sep);
  }

  /** Ending in separator + b, or being b, is having the parts of b as last parts. */
  lemma {:induction false} SplitSuffix(s: string, b: string, sep: char)
    ensures (s == b || EndsWith(s, [sep] + b)) <==> IsSuffix(Split(b, sep), Split(s, sep))
  {
    if s == b || EndsWith(s, [sep] + b) { PartsOfEnd(s, b, sep); }
    if IsSuffix(Split(b, sep), Split(s, sep)) { EndOfParts(s, b, sep); }
  }

  /** A DNS name is under a subtree exactly when the subtree's labels are its last labels, ignoring case. */
  lemma DnsIsLabelSuffix(leafDns: string, subtree: string)
    ensures DnsIsUnder(leafDns, subtree) <==> IsSuffix(Labels(subtree), Labels(leafDns))
  {
    SplitSuffix(Lower(leafDns), Lower(subtree), '.');
  }

  ghost function LowerAll(parts: seq<string>): (r: seq<string>)
    ensures |r| == |parts|
    ensures forall i :: 0 <= i < |parts| ==> r[i] == Lower(parts[i])
  {
    seq(|parts|, i requires 0 <= i < |parts| => Lower(parts[i]))
  }

  /** Comparing from the end position by position is comparing suffixes. */
  lemma ReversedPrefixIsSuffix(c: seq<string>, s: seq<string>, C: seq<string>, S: seq<string>)
    requires |c| == |C| && |s| == |S|
    requires forall i :: 0 <= i < |c| ==> C[i] == Lower(c[|c| - 1 - i])
    requires forall i :: 0 <= i < |s| ==> S[i] == Lower(s[|s| - 1 - i])
    ensures (|s| <= |c| && forall i :: 0 <= i < |s| ==> Lower(c[i]) == Lower(s[i])) <==> IsSuffix(S, C)
  {
    if |s| <= |c| {
      var tail := C[|C| - |S|..];
      forall k | 0 <= k < |S|
        ensures tail[k] == Lower(c[|S| - 1 - k]) && S[k] == Lower(s[|S| - 1 - k])
      {
      }
      if IsSuffix(S, C) {
        forall i | 0 <= i < |s|
          ensures Lower(c[i]) == Lower(s[i])
        {
          assert tail[|S| - 1 - i] == S[|S| - 1 - i];
        }
      }
    }
  }

  lemma ReversedIsSuffix(c: seq<string>, s: seq<string>)
    ensures var child, subtree := Reverse(c), Reverse(s);
      (|subtree| <= |child| && forall i :: 0 <= i < |subtree| ==> Lower(child[i]) == Lower(subtree[i])) <==>
        IsSuffix(LowerAll(s), LowerAll(c))
  {
    ReversedPrefixIsSuffix(Reverse(c), Reverse(s), LowerAll(c), LowerAll(s));
  }

  /** A distinguished name is under a subtree exactly when the subtree's RDNs are its last RDNs, ignoring case. */
  lemma DnIsRdnSuffix(childDn: string, subtreeDn: string)
    ensures DnIsUnder(childDn, subtreeDn) <==> IsSuffix(LowerAll(Rdns(subtreeDn)), LowerAll(Rdns(childDn)))
  {
    ReversedIsSuffix(Rdns(childDn), Rdns(subtreeDn));
  }

  lemma SuffixLaws<T>(a: seq<T>, b: seq<T>, c: seq<T>)
    ensures IsSuffix(a, a)
    ensures IsSuffix(a, b) && IsSuffix(b, c) ==> IsSuffix(a, c)
    ensures IsSuffix(a, c) && IsSuffix(b, c) ==> IsSuffix(a, b) || IsSuffix(b, a)
  {
    if IsSuffix(a, b) && IsSuffix(b, c) {
      assert c[|c| - |a|..] == c[|c| - |b|..][|b| - |a|..];
    }
    if IsSuffix(a, c) && IsSuffix(b, c) {
      if |a| <= |b| {
        assert b[|b| - |a|..] == c[|c| - |b|..][|b| - |a|..] == c[|c| - |a|..];
      } else {
        assert a[|a| - |b|..] == c[|c| - |a|..][|a| - |b|..] == c[|c| - |b|..];
      }
    }
  }

  /** DNS subtrees form a preorder, and two subtrees that share a name are nested. */
  lemma DnsSubtreesNest(a: string, b: string, c: string)
    ensures DnsIsUnder(a, a)
    ensures DnsIsUnder(c, b) && DnsIsUnder(b, a) ==> DnsIsUnder(c, a)
    ensures DnsIsUnder(c, a) && DnsIsUnder(c, b) ==> DnsIsUnder(a, b) || DnsIsUnder(b, a)
  {
    DnsIsLabelSuffix(c, b);
    DnsIsLabelSuffix(b, a);
    DnsIsLabelSuffix(a, b);
    DnsIsLabelSuffix(c, a);
    SuffixLaws(Labels(a), Labels(b), Labels(c));
  }

  /** Likewise for distinguished names. */
  lemma DnSubtreesNest(a: string, b: string, c: string)
    ensures DnIsUnder(a, a)
    ensures DnIsUnder(c, b) && DnIsUnder(b, a) ==> DnIsUnder(c, a)
    ensures DnIsUnder(c, a) && DnIsUnder(c, b) ==> DnIsUnder(a, b) || DnIsUnder(b, a)
  {
    DnIsRdnSuffix(a, a);
    DnIsRdnSuffix(c, b);
    DnIsRdnSuffix(b, a);
    DnIsRdnSuffix(a, b);
    DnIsRdnSuffix(c, a);
    SuffixLaws(LowerAll(Rdns(a)), LowerAll(Rdns(b)), LowerAll(Rdns(c)));
  }

  lemma {:induction false} DottedHostIsLabelSuffix(host: string, domain: string)
    ensures HostIsUnder(host, ['.'] + domain) <==> IsSuffix(Split(domain, '.'), Split(host, '.'))
  {
    assert (['.'] + domain)[1..] == domain;
    SplitSuffix(host, domain, '.');
  }

  lemma LowerDotted(domain: string)
    ensures Lower("." + domain) == ['.'] + Lower(domain)
    ensures '@' in Lower("." + domain) <==> '@' in Lower(domain)
  {
    var low := Lower("." + domain);
    assert low == ['.'] + Lower(domain);
  }

  /**
   * The dot-prefixed mailbox subtree: the mailbox's host has the subtree's labels as last labels,
   * the bare domain included.
   */
  lemma DottedEmailIsLabelSuffix(leafEmail: string, domain: string)
    requires '@' !in Lower(domain)
    ensures EmailIsUnder(leafEmail, "." + domain) <==>
      var at := IndexOf(Lower(leafEmail), '@');
      at >= 0 && IsSuffix(Labels(domain), Split(Lower(leafEmail)[at + 1..], '.'))
  {
    LowerDotted(domain);
    var at := IndexOf(Lower(leafEmail), '@');
    if at >= 0 { DottedHostIsLabelSuffix(Lower(leafEmail)[at + 1..], Lower(domain)); }
  }

  // ----- What the tests decide, per kind of name -----

  /** host is what follows the first @ of the mailbox, ignoring case. */
  ghost predicate MailboxAt(mailbox: string, host: string) {
    exists i :: FirstSign(Lower(mailbox), i) && host == Lower(mailbox)[i + 1..]
  }

  ghost predicate FirstSign(s: string, i: int) {
    0 <= i < |s| && s[i] == '@' && forall k :: 0 <= k < i ==> s[k] != '@'
  }

  /**
   * The three shapes of a mailbox subtree: a full mailbox; a dot and a domain, for the hosts with its labels last;
   * a host.
   */
  ghost predicate MailboxUnder(mailbox: string, subtree: string) {
    if '@' in subtree then Lower(mailbox) == Lower(subtree)
    else if subtree != "" && subtree[0] == '.'
    then exists host :: MailboxAt(mailbox, host) && IsSuffix(Labels(subtree[1..]), Split(host, '.'))
    else MailboxAt(mailbox, Lower(subtree))
  }

  lemma FirstSignIndex(s: string, i: int)
    ensures FirstSign(s, i) <==> i == IndexOf(s, '@') >= 0
  {
    var at := IndexOf(s, '@');
    assert forall k :: 0 <= k < at ==> s[k] == s[..at][k] && s[..at][k] in s[..at];
  }

  lemma MailboxHost(mailbox: string, host: string)
    ensures MailboxAt(mailbox, host) <==>
      var at := IndexOf(Lower(mailbox), '@'); at >= 0 && host == Lower(mailbox)[at + 1..]
  {
    FirstSignIndex(Lower(mailbox), IndexOf(Lower(mailbox), '@'));
    forall i | FirstSign(Lower(mailbox), i)
      ensures i == IndexOf(Lower(mailbox), '@')
    {
      FirstSignIndex(Lower(mailbox), i);
    }
  }

  lemma LowerKeepsSigns(s: string)
    ensures '@' in Lower(s) <==> '@' in s
    ensures s != "" ==> (Lower(s)[0] == '.' <==> s[0] == '.') && Lower(s)[1..] == Lower(s[1..])
  {
    var low := Lower(s);
    assert forall i :: 0 <= i < |s| ==> (low[i] == '@' <==> s[i] == '@');
    if '@' in s {
      var i :| 0 <= i < |s| && s[i] == '@';
      assert low[i] == '@';
    }
    if s != "" { assert low[1..] == Lower(s[1..]); }
  }

  /** The mailbox test is that of the three shapes. */
  lemma EmailMeans(mailbox: string, subtree: string)
    ensures EmailIsUnder(mailbox, subtree) <==> MailboxUnder(mailbox, subtree)
  {
    LowerKeepsSigns(subtree);
    if '@' !in subtree {
      if subtree != "" && subtree[0] == '.' {
        assert "." + subtree[1..] == subtree;
        LowerKeepsSigns(subtree[1..]);
        DottedMeans(mailbox, subtree[1..]);
      } else {
        MailboxHost(mailbox, Lower(subtree));
      }
    }
  }

  lemma DottedMeans(mailbox: string, domain: string)
    requires '@' !in Lower(domain)
    ensures EmailIsUnder(mailbox, "." + domain) <==>
      exists host :: MailboxAt(mailbox, host) && IsSuffix(Labels(domain), Split(host, '.'))
  {
    DottedEmailIsLabelSuffix(mailbox, domain);
    HostsUnder(mailbox, Labels(domain));
  }

  lemma HostsUnder(mailbox: string, labels: seq<string>)
    ensures (var at := IndexOf(Lower(mailbox), '@');
             at >= 0 && IsSuffix(labels, Split(Lower(mailbox)[at + 1..], '.'))) <==>
      exists host :: MailboxAt(mailbox, host) && IsSuffix(labels, Split(host, '.'))
  {
    var at := IndexOf(Lower(mailbox), '@');
    if at >= 0 { MailboxHost(mailbox, Lower(mailbox)[at + 1..]); }
    forall host | MailboxAt(mailbox, host)
      ensures at >= 0 && host == Lower(mailbox)[at + 1..]
    {
      MailboxHost(mailbox, host);
    }
  }

  /** n lies in the subtree s: names of one kind, compared by last RDNs, labels or host labels, or as mailboxes. */
  ghost predicate LiesIn(n: Name, s: Name, hostname: string -> Option<string>) {
    && n.kind == s.kind
    && match n.kind
       case DN => IsSuffix(LowerAll(Rdns(s.value)), LowerAll(Rdns(n.value)))
       case DNS => IsSuffix(Labels(s.value), Labels(n.value))
       case EMAIL => MailboxUnder(n.value, s.value)
       case URI => hostname(n.value).Some? && IsSuffix(Labels(s.value), Labels(hostname(n.value).value))
  }

  lemma SubtreeTestMeans(n: Name, s: Name, hostname: string -> Option<string>)
    ensures MatchesSubtree(n, s, hostname) <==> LiesIn(n, s, hostname)
  {
    DnIsRdnSuffix(n.value, s.value);
    DnsIsLabelSuffix(n.value, s.value);
    EmailMeans(n.value, s.value);
    if hostname(n.value).Some? { DnsIsLabelSuffix(hostname(n.value).value, s.value); }
  }

  // ----- Case and white space -----

  /** One of the letters A to Z and its small form. */
  predicate CasePair(capital: char, small: char) {
    exists i :: 0 <= i < 26 && capital == "ABCDEFGHIJKLMNOPQRSTUVWXYZ"[i] && small == "abcdefghijklmnopqrstuvwxyz"[i]
  }

  /** Lower-casing identifies two texts exactly when they differ at most in the case of letters. */
  lemma LowerForgetsCaseOnly(a: string, b: string)
    ensures Lower(a) == Lower(b) <==>
      |a| == |b| && forall i :: 0 <= i < |a| ==> a[i] == b[i] || CasePair(a[i], b[i]) || CasePair(b[i], a[i])
  {
    if |a| == |b| {
      forall i | 0 <= i < |a|
        ensures Lower(a)[i] == Lower(b)[i] <==> a[i] == b[i] || CasePair(a[i], b[i]) || CasePair(b[i], a[i])
      {
        CasePairIsShift(a[i], b[i]);
        CasePairIsShift(b[i], a[i]);
      }
    }
  }

  lemma CasePairIsShift(c: char, d: char)
    ensures CasePair(c, d) <==> 'A' <= c <= 'Z' && d as int == c as int + 32
  {
    var capitals, smalls := "ABCDEFGHIJKLMNOPQRSTUVWXYZ", "abcdefghijklmnopqrstuvwxyz";
    assert forall i :: 0 <= i < 26 ==> capitals[i] as int == 65 + i && smalls[i] as int == 97 + i;
    if 'A' <= c <= 'Z' { assert capitals[c as int - 65] == c; }
  }

  ghost predicate Blank(s: string) {
    forall c :: c in s ==> IsSpace(c)
  }

  lemma {:induction false} TrimStartStrips(s: string) returns (before: string)
    ensures Blank(before) && s == before + TrimStart(s)
    ensures TrimStart(s) != "" ==> !IsSpace(TrimStart(s)[0])
  {
    if s != [] && IsSpace(s[0]) {
      before := TrimStartStrips(s[1..]);
      before := [s[0]] + before;
    } else {
      before := "";
    }
  }

  lemma {:induction false} TrimEndStrips(s: string) returns (after: string)
    ensures Blank(after) && s == TrimEnd(s) + after
    ensures TrimEnd(s) != "" ==> !IsSpace(TrimEnd(s)[|TrimEnd(s)| - 1]) && TrimEnd(s)[0] == s[0]
  {
    if s != [] && IsSpace(s[|s| - 1]) {
      after := TrimEndStrips(s[..|s| - 1]);
      after := after + [s[|s| - 1]];
    } else {
      after := "";
    }
  }

  /** Trimming takes white space off both ends, all of it, and nothing else. */
  lemma TrimStrips(s: string) returns (before: string, after: string)
    ensures Blank(before) && Blank(after) && s == before + Trim(s) + after
    ensures Trim(s) != "" ==> !IsSpace(Trim(s)[0]) && !IsSpace(Trim(s)[|Trim(s)| - 1])
  {
    before := TrimStartStrips(s);
    after := TrimEndStrips(TrimStart(s));
  }

  lemma {:induction false} TrimmedPartsJoin(a: seq<string>, b: seq<string>)
    ensures TrimmedParts(a + b) == TrimmedParts(a) + TrimmedParts(b)
  {
    if a == [] {
      assert a + b == b;
    } else {
      assert (a + b)[1..] == a[1..] + b;
      TrimmedPartsJoin(a[1..], b);
    }
  }

  lemma {:induction false} SplitWithoutSeparator(s: string, sep: char)
    requires sep !in s
    ensures Split(s, sep) == [s]
  {
    if s != "" {
      SplitWithoutSeparator(s[1..], sep);
      assert [s[0]] + s[1..] == s;
    }
  }

  /** A name is cut at every comma; a part without commas is one trimmed RDN, or none when it is blank. */
  lemma RdnsAreCutAtCommas(a: string, b: string)
    ensures Rdns(a + "," + b) == Rdns(a) + Rdns(b)
    ensures ',' !in a ==> Rdns(a) == if Trim(a) == "" then [] else [Trim(a)]
  {
    SplitAtSeparator(a, b, ',');
    TrimmedPartsJoin(Split(a, ','), Split(b, ','));
    if ',' !in a {
      SplitWithoutSeparator(a, ',');
      assert [a][1..] == [];
    }
  }
}
