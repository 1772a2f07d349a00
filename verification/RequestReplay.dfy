/** The guard against replayed requests: a nonce of an owner for a deal is taken once while it is valid. */
module RequestReplay {
  import opened ErasureCode

  // ----- keys -----

  function Digit(d: nat): char
    requires d < 10
  {
    ['0', '1', '2', '3', '4', '5', '6', '7', '8', '9'][d]
  }

  function Decimal(n: nat): (s: string)
    ensures s != "" && forall i :: 0 <= i < |s| ==> s[i] != '|'
  {
    if n < 10 then [Digit(n)] else Decimal(n / 10) + [Digit(n % 10)]
  }

  datatype Key = Key(deal: nat, owner: string, nonce: nat)

  /** The database key of a request */
  function KeyString(k: Key): string {
    Decimal(k.deal) + "|" + k.owner + "|" + Decimal(k.nonce)
  }

  lemma {:induction false} DecimalInjective(a: nat, b: nat)
    requires Decimal(a) == Decimal(b)
    ensures a == b
  {
    var s := Decimal(a);
    assert s[|s| - 1] == Digit(a % 10) && s[|s| - 1] == Digit(b % 10);
    if a >= 10 && b >= 10 {
      assert s[..|s| - 1] == Decimal(a / 10) == Decimal(b / 10);
      DecimalInjective(a / 10, b / 10);
    } else {
      assert a >= 10 ==> |s| >= 2;
      assert b >= 10 ==> |s| >= 2;
    }
  }

  /** Up to the first bar, two strings without bars agree. */
  lemma FirstBar(p: string, x: string, q: string, y: string)
    requires p + "|" + x == q + "|" + y && '|' !in p && '|' !in q
    ensures p == q && x == y
  {
    var s := p + "|" + x;
    assert s[|p|] == '|' && s[|q|] == '|';
    assert forall i :: 0 <= i < |p| ==> s[i] == p[i];
    assert forall i :: 0 <= i < |q| ==> s[i] == q[i];
    assert |p| == |q|;
    assert s[..|p|] == p && s[..|q|] == q;
    assert s[|p| + 1..] == x && s[|q| + 1..] == y;
  }

  lemma LastBar(x: string, p: string, y: string, q: string)
    requires x + "|" + p == y + "|" + q && '|' !in p && '|' !in q
    ensures p == q && x == y
  {
    var s := x + "|" + p;
    assert s[|x|] == '|' && s[|y|] == '|';
    assert forall i :: |x| < i < |s| ==> s[i] == p[i - |x| - 1];
    assert forall i :: |y| < i < |s| ==> s[i] == q[i - |y| - 1];
    assert |x| == |y|;
    assert s[..|x|] == x && s[..|y|] == y;
    assert s[|x| + 1..] == p && s[|y| + 1..] == q;
  }

  /** Different requests have different keys, whatever the owner is. */
  lemma KeyInjective(a: Key, b: Key)
    requires KeyString(a) == KeyString(b)
    ensures a == b
  {
    var ra, rb := a.owner + "|" + Decimal(a.nonce), b.owner + "|" + Decimal(b.nonce);
    assert KeyString(a) == Decimal(a.deal) + "|" + ra && KeyString(b) == Decimal(b.deal) + "|" + rb;
    FirstBar(Decimal(a.deal), ra, Decimal(b.deal), rb);
    LastBar(a.owner, Decimal(a.nonce), b.owner, Decimal(b.nonce));
    DecimalInjective(a.deal, b.deal);
    DecimalInjective(a.nonce, b.nonce);
  }

  // ----- the guard -----

  datatype Verdict = Accepted | Replay | Malformed

  class ReplayGuard {
    var db: Option<map<string, nat>>
    var cache: map<Key, nat>

    /** The expiry of the last accepted request with a key */
    ghost function Known(k: Key): Option<nat>
      reads this
    {
      if db.Some? then if KeyString(k) in db.value then Some(db.value[KeyString(k)]) else None
      else if k in cache then Some(cache[k]) else None
    }

    constructor (withDb: bool)
      ensures db.Some? == withDb && forall k :: Known(k) == None
    {
      cache, db := map[], if withDb then Some(map[]) else None;
    }

    /** checkAndStoreRequestReplay, with the clock reading it takes first */
    method CheckAndStore(k: Key, expiresAt: nat, now: nat) returns (v: Verdict)
      modifies this
      ensures db.Some? == old(db.Some?)
      ensures v.Malformed? <==> k.nonce == 0 || k.owner == "" || expiresAt == 0
      ensures v.Replay? <==> !v.Malformed? && old(Known(k)).Some? && now < old(Known(k)).value
      ensures forall other :: Known(other) == if other == k && v.Accepted? then Some(expiresAt) else old(Known(other))
    {
      if k.nonce == 0 || k.owner == "" || expiresAt == 0 {
        return Malformed;
      }
      if db.Some? {
        var keyStr := KeyString(k);
        if keyStr in db.value && now < db.value[keyStr] {
          return Replay;
        }
        db := Some(db.value[keyStr := expiresAt]);
        forall other: Key | KeyString(other) == keyStr ensures other == k {
          KeyInjective(other, k);
        }
        return Accepted;
      }
      if k in cache && now < cache[k] {
        return Replay;
      }
      cache := cache[k := expiresAt];
      return Accepted;
    }
  }

  // ----- any sequence of requests -----

  datatype Request = Request(key: Key, expiresAt: nat, now: nat)

  /** Requests handled one transaction after the other; clocks were read before, in any order. */
  method HandleAll(g: ReplayGuard, requests: seq<Request>) returns (verdicts: seq<Verdict>)
    requires forall k :: g.Known(k) == None
    modifies g
    ensures |verdicts| == |requests|
    ensures forall i, j :: 0 <= i < j < |requests| ==> !Replayed(requests, verdicts, i, j)
    ensures forall i :: 0 <= i < |requests| ==> RightVerdict(requests, verdicts, i)
  {
    verdicts := [];
    for n := 0 to |requests|
      invariant |verdicts| == n
      invariant forall i, j :: 0 <= i < j < n ==> !Replayed(requests, verdicts, i, j)
      invariant forall i :: 0 <= i < n ==> RightVerdict(requests, verdicts, i)
      invariant forall k :: g.Known(k) == LastAccepted(requests, verdicts, k, n)
    {
      var r := requests[n];
      ghost var before := verdicts;
      var v := g.CheckAndStore(r.key, r.expiresAt, r.now);
      verdicts := verdicts + [v];
      forall k ensures LastAccepted(requests, verdicts, k, n) == LastAccepted(requests, before, k, n) {
        SamePast(requests, verdicts, before, k, n);
      }
      forall i, j | 0 <= i < j < n + 1 ensures !Replayed(requests, verdicts, i, j) {
        if j < n {
          assert !Replayed(requests, before, i, j);
        } else if verdicts[i].Accepted? {
          LastIsLatest(requests, verdicts, i, n);
        }
      }
      forall i | 0 <= i < n + 1 ensures RightVerdict(requests, verdicts, i) {
        if i < n {
          assert RightVerdict(requests, before, i);
          SamePast(requests, verdicts, before, requests[i].key, i);
        }
      }
    }
  }

  /** Request j was accepted although the accepted request i before it, the last with its key, was valid. */
  ghost predicate Replayed(requests: seq<Request>, verdicts: seq<Verdict>, i: nat, j: nat)
    requires i < j < |requests| && |verdicts| > j
  {
    verdicts[i].Accepted? && verdicts[j].Accepted? && requests[i].key == requests[j].key &&
    (forall m :: i < m < j && requests[m].key == requests[i].key ==> !verdicts[m].Accepted?) &&
    requests[j].now < requests[i].expiresAt
  }

  /** A request is malformed when it has no nonce, owner or expiry; any other is refused exactly while the last accepted
      one with its key is valid. */
  ghost predicate RightVerdict(requests: seq<Request>, verdicts: seq<Verdict>, i: nat)
    requires i < |requests| && |verdicts| > i
  {
    var r, last := requests[i], LastAccepted(requests, verdicts, requests[i].key, i);
    (verdicts[i].Malformed? <==> r.key.nonce == 0 || r.key.owner == "" || r.expiresAt == 0) &&
    (!verdicts[i].Malformed? ==> (verdicts[i].Replay? <==> last.Some? && r.now < last.value))
  }

  /** The expiry of the last accepted request with key k among the first n */
  ghost function LastAccepted(requests: seq<Request>, verdicts: seq<Verdict>, k: Key, n: nat): Option<nat>
    requires n <= |requests| && n <= |verdicts|
  {
    if n == 0 then None
    else if requests[n - 1].key == k && verdicts[n - 1].Accepted? then Some(requests[n - 1].expiresAt)
    else LastAccepted(requests, verdicts, k, n - 1)
  }

  lemma {:induction false} SamePast(requests: seq<Request>, a: seq<Verdict>, b: seq<Verdict>, k: Key, n: nat)
    requires n <= |requests| && n <= |a| && n <= |b| && a[..n] == b[..n]
    ensures LastAccepted(requests, a, k, n) == LastAccepted(requests, b, k, n)
  {
    if n > 0 {
      assert a[..n][n - 1] == b[..n][n - 1];
      assert a[..n - 1] == a[..n][..n - 1] && b[..n - 1] == b[..n][..n - 1];
      SamePast(requests, a, b, k, n - 1);
    }
  }

  lemma {:induction false} LastIsLatest(requests: seq<Request>, verdicts: seq<Verdict>, i: nat, n: nat)
    requires i < n <= |requests| && n <= |verdicts| && verdicts[i].Accepted?
    ensures (forall m :: i < m < n && requests[m].key == requests[i].key ==> !verdicts[m].Accepted?) ==>
      LastAccepted(requests, verdicts, requests[i].key, n) == Some(requests[i].expiresAt)
  {
    if i < n - 1 { LastIsLatest(requests, verdicts, i, n - 1); }
  }
}
