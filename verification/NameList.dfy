/** The authentication methods of a session: `strstr` in a comma-separated list of names
    (RFC 4251 section 5, RFC 4252 section 5.1), as `Session.hpp` does it. */
module NameList {
  import opened Text

  function Join(names: seq<string>): string {
    if names == [] then ""
    else if |names| == 1 then names[0]
    else names[0] + "," + Join(names[1..])
  }

  predicate Contains(s: string, pat: string) {
    Find(s, pat).Some?
  }

  predicate IsPasswordAuthSupported(names: seq<string>) {
    Contains(Join(names), "password")
  }

  predicate IsPubkeyAuthSupported(names: seq<string>) {
    Contains(Join(names), "pubkey")
  }

  lemma ContainsAt(s: string, pat: string, i: nat)
    requires Occurs(s, pat, i)
    ensures Contains(s, pat)
  {
    FindMeans(s, pat);
  }

  /** What occurs in a part occurs in the whole. */
  lemma ContainsInWhole(a: string, s: string, b: string, pat: string)
    requires Contains(s, pat)
    ensures Contains(a + s + b, pat)
  {
    FindMeans(s, pat);
    var i := Find(s, pat).value;
    assert (a + s + b)[|a| + i..|a| + i + |pat|] == s[i..i + |pat|];
    ContainsAt(a + s + b, pat, |a| + i);
  }

  /** An occurrence of a pattern without commas lies on one side of a comma. */
  lemma SplitAtComma(a: string, b: string, pat: string)
    requires pat != "" && ',' !in pat
    ensures Contains(a + "," + b, pat) <==> Contains(a, pat) || Contains(b, pat)
  {
    var s := a + "," + b;
    if Contains(s, pat) {
      FindMeans(s, pat);
      var i := Find(s, pat).value;
      if i <= |a| && |a| < i + |pat| {
        CoveredPlace(s, pat, i, |a|);
      } else if |a| < i {
        var j := i - |a| - 1;
        assert s[|a| + 1..] == b;
        SuffixOccurs(s, |a| + 1, pat, j);
        ContainsAt(b, pat, j);
      } else {
        PrefixOccurs(a, s, pat, i);
        ContainsAt(a, pat, i);
      }
    }
    if Contains(a, pat) {
      ContainsInWhole("", a, "," + b, pat);
      assert "" + a + ("," + b) == s;
    }
    if Contains(b, pat) {
      ContainsInWhole(a + ",", b, "", pat);
      assert (a + ",") + b + "" == s;
    }
  }

  /** Searching the joined list is searching the names. */
  lemma {:induction false} SearchIsPerName(names: seq<string>, pat: string)
    requires pat != "" && ',' !in pat
    ensures Contains(Join(names), pat) <==> exists i :: 0 <= i < |names| && Contains(names[i], pat)
  {
    if names == [] {
      FindMeans("", pat);
    } else if |names| > 1 {
      SearchIsPerName(names[1..], pat);
      SplitAtComma(names[0], Join(names[1..]), pat);
      forall i | 1 <= i < |names| ensures names[i] == names[1..][i - 1] {}
      if Contains(Join(names[1..]), pat) {
        var i :| 0 <= i < |names[1..]| && Contains(names[1..][i], pat);
        assert Contains(names[i + 1], pat);
      }
    }
  }

  /** The method names of RFC 4252. */
  const METHODS := ["publickey", "password", "hostbased", "none"]

  /** A string that contains a pattern contains any two neighbours of the pattern. */
  lemma ContainsNeighbours(s: string, pat: string, k: nat)
    requires Contains(s, pat) && k + 1 < |pat|
    ensures exists j :: 0 <= j < |s| - 1 && s[j] == pat[k] && s[j + 1] == pat[k + 1]
  {
    FindMeans(s, pat);
    var i := Find(s, pat).value;
    var w := s[i..i + |pat|];
    assert s[i + k] == w[k] && s[i + k + 1] == w[k + 1];
  }

  /** No method name has a 'b' before a 'k', and only "password" has a 'p' before an 'a'. */
  lemma WhatMethodsContain(m: string)
    requires m in METHODS
    ensures !Contains(m, "pubkey")
    ensures Contains(m, "password") <==> m == "password"
  {
    assert forall j :: 0 <= j < |m| - 1 ==> !(m[j] == 'b' && m[j + 1] == 'k');
    assert m == "password" || forall j :: 0 <= j < |m| - 1 ==> !(m[j] == 'p' && m[j + 1] == 'a');
    if Contains(m, "pubkey") {
      ContainsNeighbours(m, "pubkey", 2);
    }
    if m == "password" {
      ContainsAt(m, m, 0);
    } else if Contains(m, "password") {
      ContainsNeighbours(m, "password", 0);
    }
  }

  /** When a search for `pat` answers whether the list offers `method`: if it does, some name must contain
      the pattern, and if it does not, none may. */
  lemma RightExactlyWhen(names: seq<string>, pat: string, name: string)
    requires pat != "" && ',' !in pat
    ensures (Contains(Join(names), pat) <==> name in names)
       <==> if name in names then exists n :: n in names && Contains(n, pat)
            else forall n :: n in names ==> !Contains(n, pat)
  {
    SearchIsPerName(names, pat);
    if i :| 0 <= i < |names| && Contains(names[i], pat) {
      assert names[i] in names;
    }
  }

  /** On every list: the password check is wrong only if "password" is not offered and some other name
      contains it. */
  lemma PasswordCheckRightExactlyWhen(names: seq<string>)
    ensures (IsPasswordAuthSupported(names) <==> "password" in names)
       <==> "password" in names || forall n :: n in names ==> !Contains(n, "password")
  {
    RightExactlyWhen(names, "password", "password");
    ContainsAt("password", "password", 0);
  }

  /** On every list: where "publickey" is offered, the public key check is right only if some other name
      happens to contain "pubkey"; elsewhere, only if none does. */
  lemma PubkeyCheckRightExactlyWhen(names: seq<string>)
    ensures (IsPubkeyAuthSupported(names) <==> "publickey" in names)
       <==> if "publickey" in names then exists n :: n in names && n !in METHODS && Contains(n, "pubkey")
            else forall n :: n in names ==> !Contains(n, "pubkey")
  {
    RightExactlyWhen(names, "pubkey", "publickey");
    forall n | n in names && n in METHODS ensures !Contains(n, "pubkey") {
      WhatMethodsContain(n);
    }
  }

  /** An input on which it is wrong: the one method that it is about. */
  lemma PubkeyCheckMissesPublickey()
    ensures !IsPubkeyAuthSupported(["publickey"])
  {
    WhatMethodsContain("publickey");
  }

  /** Lists of the methods of RFC 4252 and of extensions that contain neither pattern, such as
      "keyboard-interactive": the password check is right on all of them. The public key method is called
      "publickey", which does not contain "pubkey": that check says no on every list, and so is right
      exactly on those that do not offer the method. */
  lemma ChecksOnRfcLists(names: seq<string>)
    requires forall n :: n in names ==> n in METHODS || !(Contains(n, "pubkey") || Contains(n, "password"))
    ensures IsPasswordAuthSupported(names) <==> "password" in names
    ensures !IsPubkeyAuthSupported(names)
    ensures (IsPubkeyAuthSupported(names) <==> "publickey" in names) <==> "publickey" !in names
  {
    SearchIsPerName(names, "password");
    SearchIsPerName(names, "pubkey");
    forall n | n in names
      ensures !Contains(n, "pubkey") && (Contains(n, "password") <==> n == "password")
    {
      if n in METHODS {
        WhatMethodsContain(n);
      }
    }
  }

  /** The method of RFC 4256 is such an extension. */
  lemma KeyboardInteractiveIsHarmless()
    ensures var n := "keyboard-interactive"; !(Contains(n, "pubkey") || Contains(n, "password"))
  {
    var n := "keyboard-interactive";
    assert forall j :: 0 <= j < |n| - 1 ==> !(n[j] == 'b' && n[j + 1] == 'k') && n[j] != 'p';
    if Contains(n, "pubkey") {
      ContainsNeighbours(n, "pubkey", 2);
    }
    if Contains(n, "password") {
      ContainsNeighbours(n, "password", 0);
    }
  }
}
