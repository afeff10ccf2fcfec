/**
 * The users service: the listing with its search, sort and paging
 * arguments, the public projection of a user, and the guarded writes on the
 * user table. The repository's query (matching, sorting, skipping, limiting)
 * is not modelled: the listing takes the page of users and the match count
 * the repository returned as parameters.
 */
module UsersService {
  import opened Wrappers
  import opened JsMath

  type UserId = string

  /** A stored user; `password` holds the hash. */
  datatype User = User(name: string, email: string, password: string)

  /** What the service hands out for a user: no password. */
  datatype PublicUser = PublicUser(id: UserId, name: string, email: string)

  function Public(id: UserId, u: User): (r: PublicUser)
    ensures r.id == id && r.name == u.name && r.email == u.email
  {
    PublicUser(id, u.name, u.email)
  }

  // ---------------------------------------------------------------------
  // Search text

  /** The characters `String.prototype.trim` removes: white space and line terminators. */
  predicate IsJsWhitespace(c: char)
  {
    var n := c as int;
    n == 0x09 || n == 0x0A || n == 0x0B || n == 0x0C || n == 0x0D || n == 0x20 || n == 0xA0
    || n == 0x1680 || (0x2000 <= n <= 0x200A) || n == 0x2028 || n == 0x2029 || n == 0x202F
    || n == 0x205F || n == 0x3000 || n == 0xFEFF
  }

  predicate AllWhitespace(s: string)
  {
    forall i :: 0 <= i < |s| ==> IsJsWhitespace(s[i])
  }

  /** A string with nothing to trim at either end. */
  predicate Trimmed(s: string)
  {
    s == [] || (!IsJsWhitespace(s[0]) && !IsJsWhitespace(s[|s| - 1]))
  }

  function TrimStart(s: string): (r: string)
    ensures |r| <= |s| && r == s[|s| - |r|..]
    ensures forall i :: 0 <= i < |s| - |r| ==> IsJsWhitespace(s[i])
    ensures r != [] ==> !IsJsWhitespace(r[0])
    decreases |s|
  {
    if s != [] && IsJsWhitespace(s[0]) then
      var tail := s[1..];
      var r := TrimStart(tail);
      assert r == s[|s| - |r|..] by { assert tail[|tail| - |r|..] == s[|s| - |r|..]; }
      assert forall i :: 1 <= i < |s| - |r| ==> IsJsWhitespace(s[i]) by {
        forall i | 1 <= i < |s| - |r| ensures IsJsWhitespace(s[i]) { assert s[i] == tail[i - 1]; }
      }
      r
    else s
  }

  function TrimEnd(s: string): (r: string)
    ensures |r| <= |s| && r == s[..|r|]
    ensures forall i :: |r| <= i < |s| ==> IsJsWhitespace(s[i])
    ensures r != [] ==> !IsJsWhitespace(r[|r| - 1])
    decreases |s|
  {
    if s != [] && IsJsWhitespace(s[|s| - 1]) then
      var front := s[..|s| - 1];
      var r := TrimEnd(front);
      assert r == s[..|r|] by { assert front[..|r|] == s[..|r|]; }
      assert forall i :: |r| <= i < |s| - 1 ==> IsJsWhitespace(s[i]) by {
        forall i | |r| <= i < |s| - 1 ensures IsJsWhitespace(s[i]) { assert s[i] == front[i]; }
      }
      r
    else s
  }

  /** `s.trim()`: s is white space, then the result, then white space, and the result has nothing to trim. */
  function Trim(s: string): (r: string)
    ensures exists i, j :: 0 <= i <= j <= |s| && r == s[i..j] && AllWhitespace(s[..i]) && AllWhitespace(s[j..])
    ensures Trimmed(r)
  {
    var front := TrimStart(s);
    var r := TrimEnd(front);
    var i := |s| - |front|;
    assert r == s[i..i + |r|];
    assert AllWhitespace(s[..i]);
    assert AllWhitespace(s[i + |r|..]) by {
      var back := s[i + |r|..];
      forall k | 0 <= k < |back| ensures IsJsWhitespace(back[k]) {
        assert back[k] == front[|r| + k];
      }
    }
    r
  }

  /** The trimmed part of a string is determined: padding a trimmed string with white space and trimming gives it back. */
  lemma TrimUnpads(a: string, x: string, b: string)
    requires AllWhitespace(a) && AllWhitespace(b) && Trimmed(x)
    ensures Trim(a + x + b) == x
  {
    if x == [] {
      assert a + x + b == (a + b) + [];
      TrimStartSkips(a + b, []);
    } else {
      assert a + x + b == a + (x + b);
      TrimStartSkips(a, x + b);
      TrimEndSkips(x, b);
    }
  }

  lemma {:induction false} TrimStartSkips(a: string, y: string)
    requires AllWhitespace(a) && (y == [] || !IsJsWhitespace(y[0]))
    ensures TrimStart(a + y) == y
    decreases |a|
  {
    if a == [] {
      assert a + y == y;
    } else {
      assert (a + y)[0] == a[0];
      assert (a + y)[1..] == a[1..] + y;
      TrimStartSkips(a[1..], y);
    }
  }

  lemma {:induction false} TrimEndSkips(y: string, b: string)
    requires AllWhitespace(b) && (y == [] || !IsJsWhitespace(y[|y| - 1]))
    ensures TrimEnd(y + b) == y
    decreases |b|
  {
    if b == [] {
      assert y + b == y;
    } else {
      var s := y + b;
      assert s[|s| - 1] == b[|b| - 1];
      assert s[..|s| - 1] == y + b[..|b| - 1];
      TrimEndSkips(y, b[..|b| - 1]);
    }
  }

  const EmailPrefix: string := "email:"

  /** `c` is `lower`, or the ASCII capital of the letter `lower` (the case-insensitive match of a JavaScript regex). */
  predicate SameIgnoringCase(c: char, lower: char)
  {
    c == lower || ('a' <= lower <= 'z' && c as int == lower as int - 32)
  }

  /** `s` matches `/^email:/i`. */
  predicate HasEmailPrefix(s: string)
  {
    |s| >= |EmailPrefix| && forall i :: 0 <= i < |EmailPrefix| ==> SameIgnoringCase(s[i], EmailPrefix[i])
  }

  /** `s.replace(/^email:/i, '')`. */
  function StripEmailPrefix(s: string): (r: string)
    ensures HasEmailPrefix(s) ==> s == s[..|EmailPrefix|] + r
    ensures !HasEmailPrefix(s) ==> r == s
  {
    if HasEmailPrefix(s) then s[|EmailPrefix|..] else s
  }

  /** The search text: nothing for a missing or empty search, else trimmed with one leading `email:` removed. */
  function SearchText(search: Option<string>): (r: string)
    ensures search.None? || search == Some("") ==> r == ""
    ensures search.Some? && search.value != "" ==>
              var t := Trim(search.value);
              (HasEmailPrefix(t) ==> t == t[..|EmailPrefix|] + r) && (!HasEmailPrefix(t) ==> r == t)
  {
    if search.None? || search.value == "" then "" else StripEmailPrefix(Trim(search.value))
  }

  /** The filter handed to the repository: everything, or the emails containing the text (case-insensitively). */
  datatype SearchQuery = MatchAll | EmailContains(text: string)

  function SearchQueryOf(search: Option<string>): (q: SearchQuery)
    ensures q == MatchAll <==> SearchText(search) == ""
    ensures q.EmailContains? ==> q.text == SearchText(search)
  {
    var text := SearchText(search);
    if text == "" then MatchAll else EmailContains(text)
  }

  /** A search of `email:` followed by a term, in any case and padded with white space, searches for the term alone. */
  lemma SearchDropsPrefix(a: string, prefix: string, term: string, b: string)
    requires AllWhitespace(a) && AllWhitespace(b) && Trimmed(term)
    requires |prefix| == |EmailPrefix| && forall i :: 0 <= i < |EmailPrefix| ==> SameIgnoringCase(prefix[i], EmailPrefix[i])
    ensures SearchText(Some(a + prefix + term + b)) == term
  {
    var x := prefix + term;
    assert x[0] == prefix[0];
    assert !IsJsWhitespace(x[0]);
    assert term == [] ==> x[|x| - 1] == prefix[|prefix| - 1];
    assert term != [] ==> x[|x| - 1] == term[|term| - 1];
    assert a + prefix + term + b == a + x + b;
    TrimUnpads(a, x, b);
    assert HasEmailPrefix(x) by {
      forall i | 0 <= i < |EmailPrefix| ensures SameIgnoringCase(x[i], EmailPrefix[i]) { assert x[i] == prefix[i]; }
    }
    assert x[|EmailPrefix|..] == term;
  }

  /** Only one prefix is removed: `email:email:x` searches for `email:x`. */
  lemma OnePrefixRemoved(term: string)
    requires Trimmed(term)
    ensures SearchText(Some(EmailPrefix + EmailPrefix + term)) == EmailPrefix + term
  {
    assert EmailPrefix + EmailPrefix + term == [] + EmailPrefix + (EmailPrefix + term) + [];
    SearchDropsPrefix([], EmailPrefix, EmailPrefix + term, []);
  }

  // ---------------------------------------------------------------------
  // Sort

  /** The part of `s` before the first `c`, or all of `s`: the first piece of `s.split(c)`. */
  function UpTo(s: string, c: char): (r: string)
    ensures |r| <= |s| && r == s[..|r|]
    ensures c !in r
    ensures |r| < |s| ==> s[|r|] == c
  {
    if s == [] || s[0] == c then [] else [s[0]] + UpTo(s[1..], c)
  }

  /** Splitting a string at the first `c` gives back the part before it. */
  lemma {:induction false} UpToStops(f: string, c: char, rest: string)
    requires c !in f
    ensures UpTo(f + [c] + rest, c) == f
  {
    if f != [] {
      assert (f + [c] + rest)[1..] == f[1..] + [c] + rest;
      UpToStops(f[1..], c, rest);
    }
  }

  /** A string without `c` is a single piece. */
  lemma {:induction false} UpToWhole(f: string, c: char)
    requires c !in f
    ensures UpTo(f, c) == f
  {
    if f != [] {
      UpToWhole(f[1..], c);
    }
  }

  /** The sort field (or none) and direction: -1 descending, 1 ascending. */
  datatype SortSpec = SortSpec(sortBy: Option<string>, sortOrder: int)

  /** The `sort` argument `field:order`: `desc` as the second piece gives -1, anything else 1. */
  function ParseSort(sort: Option<string>): (r: SortSpec)
    ensures r.sortOrder == -1 || r.sortOrder == 1
    ensures sort.None? || sort == Some("") ==> r == SortSpec(None, 1)
    ensures sort.Some? && sort.value != "" ==> r.sortBy.Some? && ':' !in r.sortBy.value
    ensures sort.Some? && sort.value != "" ==>
              |r.sortBy.value| <= |sort.value| && r.sortBy.value == sort.value[..|r.sortBy.value|]
              && (|r.sortBy.value| < |sort.value| ==> sort.value[|r.sortBy.value|] == ':')
    ensures sort.Some? && sort.value != "" ==>
              (r.sortOrder == -1 <==> |r.sortBy.value| < |sort.value|
                                      && UpTo(sort.value[|r.sortBy.value| + 1..], ':') == "desc")
  {
    if sort.None? || sort.value == "" then SortSpec(None, 1)
    else
      var s := sort.value;
      var field := UpTo(s, ':');
      var order := if |field| < |s| then Some(UpTo(s[|field| + 1..], ':')) else None;
      SortSpec(Some(field), if order == Some("desc") then -1 else 1)
  }

  /**
   * `field:order`, alone or followed by further `:` pieces, sorts by the
   * field, descending exactly when the second piece is `desc`.
   */
  lemma ParseFieldAndOrder(field: string, order: string, rest: string)
    requires ':' !in field && ':' !in order
    requires rest == "" || rest[0] == ':'
    ensures ParseSort(Some(field + ":" + order + rest)) == SortSpec(Some(field), if order == "desc" then -1 else 1)
  {
    var s := field + ":" + order + rest;
    assert s == field + [':'] + (order + rest);
    UpToStops(field, ':', order + rest);
    assert s[|field| + 1..] == order + rest;
    if rest == "" {
      assert order + rest == order;
      UpToWhole(order, ':');
    } else {
      assert order + rest == order + [':'] + rest[1..];
      UpToStops(order, ':', rest[1..]);
    }
  }

  /** Only the second piece decides: `a:b:desc` sorts ascending by `a`. */
  lemma ThirdPieceNotOrder(field: string, order: string, rest: string)
    requires ':' !in field && ':' !in order && order != "desc"
    ensures ParseSort(Some(field + ":" + order + ":desc" + rest)).sortOrder == 1
  {
    assert field + ":" + order + ":desc" + rest == field + ":" + order + (":desc" + rest);
    ParseFieldAndOrder(field, order, ":desc" + rest);
  }

  /** A bare field sorts ascending by it. */
  lemma ParseFieldOnly(field: string)
    requires field != "" && ':' !in field
    ensures ParseSort(Some(field)) == SortSpec(Some(field), 1)
  {
    UpToWhole(field, ':');
  }

  /** A third piece is ignored: `field:desc:x` still sorts descending. */
  lemma ParseIgnoresThirdPiece(field: string, rest: string)
    requires ':' !in field
    ensures ParseSort(Some(field + ":desc:" + rest)) == SortSpec(Some(field), -1)
  {
    var s := field + ":desc:" + rest;
    assert s == field + [':'] + ("desc:" + rest);
    UpToStops(field, ':', "desc:" + rest);
    assert s[|field| + 1..] == "desc" + [':'] + rest;
    UpToStops("desc", ':', rest);
  }

  // ---------------------------------------------------------------------
  // Paging

  /** `Math.ceil(totalUsers / pageSize)`: a whole number, or Infinity or NaN for a zero page size. */
  datatype PageCount = Pages(n: int) | Infinite | NotANumber

  function TotalPages(totalUsers: nat, pageSize: int): (r: PageCount)
    ensures pageSize > 0 ==> r.Pages? && (r.n - 1) * pageSize < totalUsers <= r.n * pageSize
    ensures pageSize > 0 ==> (r.n == 0 <==> totalUsers == 0)
    ensures pageSize < 0 ==> r.Pages? && r.n <= 0
    ensures pageSize == 0 ==> r == if totalUsers == 0 then NotANumber else Infinite
  {
    if pageSize > 0 then
      PageCountZero(totalUsers, pageSize);
      Pages(CeilDiv(totalUsers, pageSize))
    else if pageSize < 0 then
      NegativePageCount(totalUsers, -pageSize);
      Pages(-(totalUsers / -pageSize))
    else if totalUsers == 0 then NotANumber
    else Infinite
  }

  /** Over a positive page size, the page count is zero exactly when there are no users. */
  lemma PageCountZero(totalUsers: nat, pageSize: int)
    requires pageSize > 0
    ensures CeilDiv(totalUsers, pageSize) == 0 <==> totalUsers == 0
  {
    var n := CeilDiv(totalUsers, pageSize);
    if n <= 0 {
      MulMonotone(n, 0, pageSize);
    } else {
      MulMonotone(0, n - 1, pageSize);
    }
  }

  lemma NegativePageCount(totalUsers: nat, d: int)
    requires d > 0
    ensures -(totalUsers / d) <= 0
  {
  }

  /** JavaScript's `x < totalPages`: true below Infinity, false against NaN. */
  predicate LessThan(x: int, totalPages: PageCount)
  {
    match totalPages
    case Pages(n) => x < n
    case Infinite => true
    case NotANumber => false
  }

  /** The number of records before the page: `(pageNumber - 1) * pageSize`. */
  function Skip(pageNumber: int, pageSize: int): int
  {
    (pageNumber - 1) * pageSize
  }

  /** From page one on, the skip is a whole number of pages, none of them negative. */
  lemma SkipIsWholePages(pageNumber: int, pageSize: int)
    requires pageNumber >= 1 && pageSize >= 1
    ensures Skip(pageNumber, pageSize) >= 0 && Skip(pageNumber, pageSize) % pageSize == 0
  {
    MulMonotone(0, pageNumber - 1, pageSize);
    MultipleHasNoRemainder(pageNumber - 1, pageSize);
  }

  lemma MultipleHasNoRemainder(k: int, m: int)
    requires m > 0
    ensures (k * m) % m == 0
  {
    var q, r := (k * m) / m, (k * m) % m;
    assert m * (k - q) == r;
    if k - q >= 1 {
      MulMonotone(1, k - q, m);
    } else if k - q <= -1 {
      MulMonotone(k - q, -1, m);
    }
  }

  /** A page starts inside the matches exactly when its number is at most the page count. */
  lemma {:induction false} PageInRange(pageNumber: int, pageSize: int, totalUsers: nat)
    requires pageSize > 0
    ensures Skip(pageNumber, pageSize) < totalUsers <==> pageNumber <= TotalPages(totalUsers, pageSize).n
  {
    var n := TotalPages(totalUsers, pageSize).n;
    if pageNumber <= n {
      MulMonotone(pageNumber - 1, n - 1, pageSize);
    } else {
      MulMonotone(n, pageNumber - 1, pageSize);
    }
  }

  /** The arguments the listing hands to the repository. */
  datatype UsersQuery = UsersQuery(filter: SearchQuery, sortBy: Option<string>, sortOrder: int, skip: int, limit: int)

  /** getUsers, first half: the repository query built from the page, search and sort arguments. */
  function UsersQueryOf(pageNumber: int, pageSize: int, search: Option<string>, sort: Option<string>): (q: UsersQuery)
    ensures q.filter == SearchQueryOf(search)
    ensures SortSpec(q.sortBy, q.sortOrder) == ParseSort(sort)
    ensures q.limit == pageSize
    ensures q.skip == (pageNumber - 1) * pageSize
    ensures pageNumber >= 1 && pageSize >= 1 ==> q.skip >= 0 && q.skip % pageSize == 0
  {
    var spec := ParseSort(sort);
    assert pageNumber >= 1 && pageSize >= 1 ==> Skip(pageNumber, pageSize) >= 0 && Skip(pageNumber, pageSize) % pageSize == 0 by {
      if pageNumber >= 1 && pageSize >= 1 { SkipIsWholePages(pageNumber, pageSize); }
    }
    UsersQuery(SearchQueryOf(search), spec.sortBy, spec.sortOrder, Skip(pageNumber, pageSize), pageSize)
  }

  datatype UsersPage = UsersPage(
    pageNumber: int,
    pageSize: int,
    count: int,
    totalPages: PageCount,
    hasPreviousPage: bool,
    hasNextPage: bool,
    data: seq<PublicUser>)

  /** The public projection of a list of users, in order. */
  function Project(users: seq<(UserId, User)>): (r: seq<PublicUser>)
    ensures |r| == |users|
    ensures forall i :: 0 <= i < |users| ==> r[i] == Public(users[i].0, users[i].1)
  {
    if users == [] then [] else [Public(users[0].0, users[0].1)] + Project(users[1..])
  }

  /**
   * getUsers, second half: the reply built from the page of users the
   * repository returned and the number of users matching the search.
   */
  function UsersPageOf(pageNumber: int, pageSize: int, page: seq<(UserId, User)>, totalUsers: nat): (r: UsersPage)
    ensures r.pageNumber == pageNumber && r.pageSize == pageSize
    ensures r.count == |r.data| == |page|
    ensures forall i :: 0 <= i < |page| ==> r.data[i] == Public(page[i].0, page[i].1)
    ensures r.totalPages == TotalPages(totalUsers, pageSize)
    ensures r.hasPreviousPage <==> pageNumber > 1
    ensures pageSize > 0 ==> (r.hasNextPage <==> pageNumber * pageSize < totalUsers)
    ensures pageSize == 0 ==> (r.hasNextPage <==> totalUsers > 0)
  {
    var totalPages := TotalPages(totalUsers, pageSize);
    var hasNext := LessThan(pageNumber, totalPages);
    assert pageSize > 0 ==> (hasNext <==> pageNumber * pageSize < totalUsers) by {
      if pageSize > 0 {
        if pageNumber < totalPages.n {
          MulMonotone(pageNumber, totalPages.n - 1, pageSize);
        } else {
          MulMonotone(totalPages.n, pageNumber, pageSize);
        }
      }
    }
    UsersPage(pageNumber, pageSize, |page|, totalPages, pageNumber > 1, hasNext, Project(page))
  }

  // ---------------------------------------------------------------------
  // The user table

  class UserDirectory {
    var users: map<UserId, User>

    constructor ()
      ensures users == map[]
    {
      users := map[];
    }

    /** getUser: the public view of a present user, nothing for an absent id. */
    function GetUser(id: UserId): (r: Option<PublicUser>)
      reads this
      ensures r.Some? <==> id in users
      ensures r.Some? ==> r.value == PublicUser(id, users[id].name, users[id].email)
    {
      if id !in users then None else Some(Public(id, users[id]))
    }

    /**
     * The repository's `findOne({ email })`: some stored user with this email,
     * or nothing when there is none. Which of several matches it returns is
     * left open.
     */
    ghost function UserByEmail(email: string): (r: Option<UserId>)
      reads this
      ensures r.Some? <==> exists id :: id in users && users[id].email == email
      ensures r.Some? ==> r.value in users && users[r.value].email == email
    {
      if exists id :: id in users && users[id].email == email then
        var id :| id in users && users[id].email == email;
        Some(id)
      else None
    }

    /** emailIsRegistered: the lookup by email found a user. */
    ghost function EmailIsRegistered(email: string): (r: bool)
      reads this
      ensures r <==> exists id :: id in users && users[id].email == email
    {
      UserByEmail(email).Some?
    }

    /** createUser: the user is stored with the hash of its password; a throwing insert answers `null`. */
    method CreateUser(id: UserId, name: string, email: string, hashedPassword: string, repoFails: bool) returns (ok: bool)
      modifies this
      ensures ok <==> !repoFails && id !in old(users)
      ensures users == if ok then old(users)[id := User(name, email, hashedPassword)] else old(users)
    {
      if repoFails || id in users {
        return false;
      }
      users := users[id := User(name, email, hashedPassword)];
      return true;
    }

    /** updateUser: refused for an unknown id; otherwise name and email change and the password stays. */
    method UpdateUser(id: UserId, name: string, email: string, repoFails: bool) returns (ok: bool)
      modifies this
      ensures ok <==> id in old(users) && !repoFails
      ensures users.Keys == old(users).Keys
      ensures forall k :: k in users && k != id ==> users[k] == old(users)[k]
      ensures id in users ==> users[id] == if ok then User(name, email, old(users)[id].password) else old(users)[id]
    {
      var user := GetUser(id);
      if user.None? {
        return false;
      }
      if repoFails {
        return false;
      }
      users := users[id := users[id].(name := name, email := email)];
      return true;
    }

    /** deleteUser: refused for an unknown id; otherwise exactly that user is removed. */
    method DeleteUser(id: UserId, repoFails: bool) returns (ok: bool)
      modifies this
      ensures ok <==> id in old(users) && !repoFails
      ensures users == if ok then old(users) - {id} else old(users)
    {
      var user := GetUser(id);
      if user.None? {
        return false;
      }
      if repoFails {
        return false;
      }
      users := users - {id};
      return true;
    }

    /** changePassword: refused for an unknown id; otherwise only that user's password hash changes. */
    method ChangePassword(id: UserId, hashedPassword: string) returns (ok: bool)
      modifies this
      ensures ok <==> id in old(users)
      ensures users.Keys == old(users).Keys
      ensures forall k :: k in users && k != id ==> users[k] == old(users)[k]
      ensures id in users ==> users[id] == old(users)[id].(password := hashedPassword)
    {
      var user := GetUser(id);
      if user.None? {
        return false;
      }
      users := users[id := users[id].(password := hashedPassword)];
      return true;
    }
  }
}
