/** handler_utils.py: the grammar of CSC names (`name[:index]`) and of
    `user@host` identifiers, and the checks built on them.

    Each regular expression is given twice: as its meaning (a string matches
    when it splits into the pieces the pattern describes: `CscPattern`,
    `UserHostPattern`) and as a left-to-right recogniser (`MatchCsc`,
    `MatchUserHost`) that the checks run. The two are proved to agree.
    Matching is over ASCII and `$` means the end of the string. */
module HandlerUtils {
  import opened AuthTypes
  import opened Text

  // ---------------------------------------------------------------------
  // Character classes

  /** [a-zA-Z] */
  predicate IsLetter(c: char) { 'a' <= c <= 'z' || 'A' <= c <= 'Z' }

  /** \d, ASCII digits only. */
  predicate IsDigit(c: char) { '0' <= c <= '9' }

  /** [_A-Za-z0-9] */
  predicate IsNameChar(c: char) { c == '_' || IsLetter(c) || IsDigit(c) }

  /** [-._A-Za-z0-9] */
  predicate IsHostChar(c: char) { c == '-' || c == '.' || IsNameChar(c) }

  // ---------------------------------------------------------------------
  // What the two patterns mean

  /** [a-zA-Z][_A-Za-z0-9]* */
  predicate IsName(t: string)
  {
    |t| >= 1 && IsLetter(t[0]) && forall i :: 1 <= i < |t| ==> IsNameChar(t[i])
  }

  /** \d+ */
  predicate IsIndex(t: string)
  {
    |t| >= 1 && forall i :: 0 <= i < |t| ==> IsDigit(t[i])
  }

  /** CSC_NAME_INDEX_RE = ^[a-zA-Z][_A-Za-z0-9]*(:\d+)?$ : a name, optionally
      followed by ':' and an index. */
  ghost predicate CscPattern(s: string)
  {
    IsName(s) || exists k :: 0 < k < |s| && s[k] == ':' && IsName(s[..k]) && IsIndex(s[k + 1..])
  }

  /** The user part [a-zA-Z][-._A-Za-z0-9]* */
  predicate IsUser(t: string)
  {
    |t| >= 1 && IsLetter(t[0]) && forall i :: 1 <= i < |t| ==> IsHostChar(t[i])
  }

  /** The host part [a-zA-Z0-9][-._A-Za-z0-9]* */
  predicate IsHost(t: string)
  {
    |t| >= 1 && (IsLetter(t[0]) || IsDigit(t[0])) && forall i :: 1 <= i < |t| ==> IsHostChar(t[i])
  }

  /** USER_HOST_RE = ^[a-zA-Z][-._A-Za-z0-9]*@[a-zA-Z0-9][-._A-Za-z0-9]*$ */
  ghost predicate UserHostPattern(s: string)
  {
    exists k :: 0 <= k < |s| && s[k] == '@' && IsUser(s[..k]) && IsHost(s[k + 1..])
  }

  // ---------------------------------------------------------------------
  // The recognisers

  /** `CSC_NAME_INDEX_RE.match(s)`: a letter, then name characters up to the
      end or up to a ':' that is followed by one or more digits only. */
  predicate MatchCsc(s: string)
  {
    |s| >= 1 && IsLetter(s[0]) && ScanName(s, 1)
  }

  predicate ScanName(s: string, i: nat)
    requires i <= |s|
    decreases |s| - i
  {
    if i == |s| then true
    else if IsNameChar(s[i]) then ScanName(s, i + 1)
    else s[i] == ':' && i + 1 < |s| && ScanDigits(s, i + 1)
  }

  predicate ScanDigits(s: string, i: nat)
    requires i <= |s|
    decreases |s| - i
  {
    i == |s| || (IsDigit(s[i]) && ScanDigits(s, i + 1))
  }

  /** `USER_HOST_RE.match(s)`: a letter, user characters up to an '@', then
      a letter or digit and host characters up to the end. */
  predicate MatchUserHost(s: string)
  {
    |s| >= 1 && IsLetter(s[0]) && ScanUser(s, 1)
  }

  predicate ScanUser(s: string, i: nat)
    requires i <= |s|
    decreases |s| - i
  {
    if i == |s| then false
    else if IsHostChar(s[i]) then ScanUser(s, i + 1)
    else s[i] == '@' && i + 1 < |s| && (IsLetter(s[i + 1]) || IsDigit(s[i + 1])) && ScanHost(s, i + 2)
  }

  predicate ScanHost(s: string, i: nat)
    requires i <= |s|
    decreases |s| - i
  {
    i == |s| || (IsHostChar(s[i]) && ScanHost(s, i + 1))
  }

  // ---------------------------------------------------------------------
  // The recognisers accept exactly what the patterns describe

  lemma {:induction false} ScanDigitsCorrect(s: string, i: nat)
    requires i < |s|
    ensures ScanDigits(s, i) <==> IsIndex(s[i..])
    decreases |s| - i
  {
    if i + 1 < |s| {
      ScanDigitsCorrect(s, i + 1);
      assert forall j :: 1 <= j < |s[i..]| ==> s[i..][j] == s[i + 1..][j - 1];
    }
  }

  lemma {:induction false} ScanHostCorrect(s: string, i: nat)
    requires i <= |s|
    ensures ScanHost(s, i) <==> forall j :: i <= j < |s| ==> IsHostChar(s[j])
    decreases |s| - i
  {
    if i < |s| {
      ScanHostCorrect(s, i + 1);
    }
  }

  lemma {:induction false} ScanNameCorrect(s: string, i: nat)
    requires 1 <= i <= |s| && IsName(s[..i])
    ensures ScanName(s, i) <==> CscPattern(s)
    decreases |s| - i
  {
    if i == |s| {
      assert s[..i] == s;
    } else if IsNameChar(s[i]) {
      assert s[..i + 1][..i] == s[..i];
      ScanNameCorrect(s, i + 1);
    } else {
      assert !IsName(s) by { assert s[..i][0] == s[0]; }
      if s[i] == ':' && i + 1 < |s| {
        ScanDigitsCorrect(s, i + 1);
      }
      if CscPattern(s) {
        var k :| 0 < k < |s| && s[k] == ':' && IsName(s[..k]) && IsIndex(s[k + 1..]);
        assert k == i;
      }
    }
  }

  lemma MatchCscCorrect(s: string)
    ensures MatchCsc(s) <==> CscPattern(s)
  {
    if |s| >= 1 && IsLetter(s[0]) {
      assert IsName(s[..1]);
      ScanNameCorrect(s, 1);
    }
  }

  lemma {:induction false} ScanUserCorrect(s: string, i: nat)
    requires 1 <= i <= |s| && IsUser(s[..i])
    ensures ScanUser(s, i) <==> UserHostPattern(s)
    decreases |s| - i
  {
    if i == |s| {
      assert s[..i] == s;
      assert forall k :: 0 <= k < |s| ==> s[k] != '@';
    } else if IsHostChar(s[i]) {
      assert s[..i + 1][..i] == s[..i];
      ScanUserCorrect(s, i + 1);
    } else {
      if s[i] == '@' && i + 1 < |s| {
        ScanHostCorrect(s, i + 2);
        if ScanUser(s, i) {
          assert IsHost(s[i + 1..]);
        }
        if IsHost(s[i + 1..]) {
          assert s[i + 1..][0] == s[i + 1];
          assert forall j :: i + 2 <= j < |s| ==> s[j] == s[i + 1..][j - i - 1];
        }
      }
      if UserHostPattern(s) {
        var k :| 0 <= k < |s| && s[k] == '@' && IsUser(s[..k]) && IsHost(s[k + 1..]);
        assert k == i;
      }
    }
  }

  lemma MatchUserHostCorrect(s: string)
    ensures MatchUserHost(s) <==> UserHostPattern(s)
  {
    if |s| >= 1 && IsLetter(s[0]) {
      assert IsUser(s[..1]);
      ScanUserCorrect(s, 1);
    }
  }

  // ---------------------------------------------------------------------
  // check_csc and check_user_host

  /** `check_csc(csc)`: the argument itself when it matches the CSC pattern,
      ValueError otherwise. */
  function CheckCsc(csc: string): (r: Result<string>)
    ensures r == if CscPattern(csc) then Ok(csc) else Err(InvalidCsc(csc))
  {
    MatchCscCorrect(csc);
    if MatchCsc(csc) then Ok(csc) else Err(InvalidCsc(csc))
  }

  /** `check_user_host(user_host)`: the argument itself when it matches the
      user@host pattern, ValueError otherwise. */
  function CheckUserHost(userHost: string): (r: Result<string>)
    ensures r == if UserHostPattern(userHost) then Ok(userHost) else Err(InvalidUserHost(userHost))
  {
    MatchUserHostCorrect(userHost);
    if MatchUserHost(userHost) then Ok(userHost) else Err(InvalidUserHost(userHost))
  }

  // ---------------------------------------------------------------------
  // What the grammar admits

  /** A valid CSC is made of name characters and ':' only. */
  lemma CscChars(s: string)
    requires CscPattern(s)
    ensures forall i :: 0 <= i < |s| ==> IsNameChar(s[i]) || s[i] == ':'
  {
    if !IsName(s) {
      var k :| 0 < k < |s| && s[k] == ':' && IsName(s[..k]) && IsIndex(s[k + 1..]);
      forall i | 0 <= i < |s|
        ensures IsNameChar(s[i]) || s[i] == ':'
      {
        if i < k {
          assert s[..k][i] == s[i];
        } else if i > k {
          assert s[k + 1..][i - k - 1] == s[i];
        }
      }
    }
  }

  /** A valid CSC starts with a letter: "_abc", ".abc", "-abc:1", "?abc" and
      "*abc" are all rejected. */
  lemma CscStartsWithLetter(s: string)
    requires CscPattern(s)
    ensures |s| >= 1 && IsLetter(s[0])
  {
    if !IsName(s) {
      var k :| 0 < k < |s| && s[k] == ':' && IsName(s[..k]) && IsIndex(s[k + 1..]);
      assert s[..k][0] == s[0];
    }
  }

  /** A valid CSC holds at most one ':', and what follows it is one or more
      digits: "abc:a", "abc:1a" and "abc:" are rejected. */
  lemma CscIndexIsDigits(s: string, k: nat)
    requires CscPattern(s) && k < |s| && s[k] == ':'
    ensures k + 1 < |s|
    ensures forall j :: k < j < |s| ==> IsDigit(s[j])
    ensures forall j :: 0 <= j < k ==> IsNameChar(s[j])
  {
    assert !IsName(s);
    var m :| 0 < m < |s| && s[m] == ':' && IsName(s[..m]) && IsIndex(s[m + 1..]);
    forall j | m < j < |s| ensures IsDigit(s[j]) {
      assert s[m + 1..][j - m - 1] == s[j];
    }
    forall j | 0 <= j < m ensures IsNameChar(s[j]) {
      assert s[..m][j] == s[j];
    }
    assert k == m;
  }

  /** A valid user@host is made of host characters and '@' only. */
  lemma UserHostChars(s: string, k: nat)
    requires k < |s| && s[k] == '@' && IsUser(s[..k]) && IsHost(s[k + 1..])
    ensures forall i :: 0 <= i < |s| && i != k ==> IsHostChar(s[i])
  {
    forall i | 0 <= i < |s| && i != k
      ensures IsHostChar(s[i])
    {
      if i < k {
        assert s[..k][i] == s[i];
      } else {
        assert s[k + 1..][i - k - 1] == s[i];
      }
    }
  }

  /** The positions of '@' in a string. */
  function AtSigns(s: string): set<nat>
  {
    set i: nat | i < |s| && s[i] == '@'
  }

  /** A valid user@host holds exactly one '@'; the user part starts with a
      letter and the host part with a letter or a digit. */
  lemma UserHostOneAt(s: string)
    requires UserHostPattern(s)
    ensures |AtSigns(s)| == 1
    ensures IsLetter(s[0])
  {
    var k :| 0 <= k < |s| && s[k] == '@' && IsUser(s[..k]) && IsHost(s[k + 1..]);
    UserHostChars(s, k);
    assert AtSigns(s) == {k};
    assert s[..k][0] == s[0];
  }

  /** The two grammars are disjoint: no valid CSC contains '@', so no string
      is both a CSC and a user@host. */
  lemma GrammarsDisjoint(s: string)
    ensures CscPattern(s) ==> '@' !in s && !UserHostPattern(s)
  {
    if CscPattern(s) {
      CscChars(s);
    }
  }

  /** Valid CSCs and user@host values carry no comma and no white space, so
      they survive being joined with ", " and split again. */
  lemma CscIsListSafe(s: string)
    requires CscPattern(s)
    ensures ',' !in s && Trimmed(s) && s != []
  {
    CscChars(s);
    CscStartsWithLetter(s);
  }

  lemma UserHostIsListSafe(s: string)
    requires UserHostPattern(s)
    ensures ',' !in s && Trimmed(s) && s != []
  {
    var k :| 0 <= k < |s| && s[k] == '@' && IsUser(s[..k]) && IsHost(s[k + 1..]);
    UserHostChars(s, k);
  }

  // ---------------------------------------------------------------------
  // The set helpers base_authorize_handler.py imports from here

  /** `set_from_comma_separated_string(s)`: the stripped pieces of
      `s.split(",")`, as a set. */
  function SetFromCommaSeparatedString(s: string): (r: set<string>)
    ensures r != {}
    ensures forall x :: x in r <==> x in StripAll(Split(s))
  {
    var pieces := StripAll(Split(s));
    var r := set x | x in pieces;
    assert pieces[0] in r;
    r
  }

  /** `for x in xs: check(x)`: the first error in list order, if any. */
  function FirstError(xs: seq<string>, check: string -> Result<string>): (r: Result<()>)
    ensures r.Ok? <==> forall i :: 0 <= i < |xs| ==> check(xs[i]).Ok?
    ensures r.Err? ==> exists i :: 0 <= i < |xs| && check(xs[i]) == Err(r.error)
                        && forall j :: 0 <= j < i ==> check(xs[j]).Ok?
  {
    if xs == [] then Ok(())
    else if check(xs[0]).Err? then Err(check(xs[0]).error)
    else
      var r := FirstError(xs[1..], check);
      if r.Err? then
        var i :| 0 <= i < |xs[1..]| && check(xs[1..][i]) == Err(r.error)
                 && forall j :: 0 <= j < i ==> check(xs[1..][j]).Ok?;
        assert check(xs[i + 1]) == Err(r.error);
        r
      else r
  }

  /** `check_cscs(cscs)`: every element is a valid CSC, or ValueError naming
      one that is not. Python's set order is unspecified; the model checks in
      sorted order, and promises only that the named entry is invalid. */
  function CheckCscs(cscs: set<string>): (r: Result<()>)
    ensures r.Ok? <==> forall x :: x in cscs ==> CscPattern(x)
    ensures r.Err? ==> r.error.InvalidCsc? && r.error.csc in cscs && !CscPattern(r.error.csc)
  {
    var xs := Sorted(cscs);
    var r := FirstError(xs, CheckCsc);
    if r.Ok? then
      assert forall x :: x in cscs ==> CscPattern(x) by {
        forall x | x in cscs ensures CscPattern(x) {
          var i :| 0 <= i < |xs| && xs[i] == x;
          assert CheckCsc(xs[i]).Ok?;
        }
      }
      r
    else
      var i :| 0 <= i < |xs| && CheckCsc(xs[i]) == Err(r.error);
      assert r.error == InvalidCsc(xs[i]) && xs[i] in xs;
      r
  }

  /** `check_user_hosts(user_hosts)`: every element is a valid user@host,
      or ValueError naming one that is not. */
  function CheckUserHosts(userHosts: set<string>): (r: Result<()>)
    ensures r.Ok? <==> forall x :: x in userHosts ==> UserHostPattern(x)
    ensures r.Err? ==> r.error.InvalidUserHost? && r.error.userHost in userHosts
                       && !UserHostPattern(r.error.userHost)
  {
    var xs := Sorted(userHosts);
    var r := FirstError(xs, CheckUserHost);
    if r.Ok? then
      assert forall x :: x in userHosts ==> UserHostPattern(x) by {
        forall x | x in userHosts ensures UserHostPattern(x) {
          var i :| 0 <= i < |xs| && xs[i] == x;
          assert CheckUserHost(xs[i]).Ok?;
        }
      }
      r
    else
      var i :| 0 <= i < |xs| && CheckUserHost(xs[i]) == Err(r.error);
      assert r.error == InvalidUserHost(xs[i]) && xs[i] in xs;
      r
  }
}
