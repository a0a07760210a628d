/** `AuthRandom` of `cowrie/core/auth.py`: a source address is let in after a random number of
    different attempts, and what let one address in is remembered for others in a bounded cache. */
module AuthRandom {
  import opened Options
  import opened Struct

  /** A login or a password as the caller passes it: a `str`, or the bytes that SSH and telnet deliver.
      On Python 2 these are one type, and every text is a `str`. */
  datatype Text = Str(s: string) | Raw(b: Bytes)

  const HEX := "0123456789abcdef"

  /** `str` of bytes on Python 3: what the literal would look like. */
  function Literal(b: Bytes): string {
    var quote := if 39 in b && 34 !in b then '"' else '\'';
    "b" + [quote] + Escaped(b, quote) + [quote]
  }

  function Escaped(b: Bytes, quote: char): string {
    if |b| == 0 then ""
    else
      var c: nat := b[0];
      (if c == quote as int || c == 92 then ['\\', c as char]
       else if c == 9 then "\\t"
       else if c == 10 then "\\n"
       else if c == 13 then "\\r"
       else if 32 <= c < 127 then [c as char]
       else "\\x" + [HEX[c / 16], HEX[c % 16]]) + Escaped(b[1..], quote)
  }

  /** `str(text)`. */
  function Shown(text: Text): string {
    match text
    case Str(s) => s
    case Raw(b) => Literal(b)
  }

  /** The dict kept for one address; a missing key is None. */
  datatype Info = Info(max: Option<int>, tries: Option<int>, tried: Option<seq<string>>,
                       user: Option<string>, pw: Option<string>)

  const BLANK := Info(None, None, None, None, None)

  datatype Config = Config(minTry: int, maxTry: int, maxCache: int)

  /** The bounds that `__init__` works with, given the three configured numbers, if there are three. */
  function Bounds(parameters: Option<(int, int, int)>): (c: Config)
    ensures c.minTry <= c.maxTry
    ensures parameters == None ==> c == Config(2, 5, 10)
    ensures parameters.Some? ==> c.minTry == parameters.value.0 && c.maxCache == parameters.value.2
    ensures parameters.Some? && parameters.value.0 <= parameters.value.1 ==> c.maxTry == parameters.value.1
    ensures parameters.Some? && parameters.value.0 > parameters.value.1 ==> c.maxTry == c.minTry + 1
  {
    var (lo, hi, cache) := if parameters.Some? then parameters.value else (2, 5, 10);
    Config(lo, if hi < lo then lo + 1 else hi, cache)
  }

  /** `uservar`: the cache and the dict of every address. */
  datatype State = State(users: map<string, Info>, cache: seq<string>)

  /** One call of `checklogin`; `draw` is what `randint(mintry, maxtry)` would give. */
  datatype Visit = Visit(ip: string, login: Text, passwd: Text, draw: int)

  function UserPass(v: Visit): string { Shown(v.login) + ":" + Shown(v.passwd) }

  function Remembered(cfg: Config, cache: seq<string>, userpass: string): seq<string> {
    var longer := cache + [userpass];
    if |longer| > cfg.maxCache then longer[1..] else longer
  }

  /** The key of the cache among the addresses. */
  const CACHE := "cache"

  function GetOr<T>(o: Option<T>, default: T): T { if o == None then default else o.value }

  /** `checklogin`: the new state, and whether the visitor gets in.  An address spelled like the key of
      the cache never does: the cache is taken for its record, which raises TypeError.  The last branch
      compares the login as passed with the `str` on record, but the `str` of the password. */
  function Check(cfg: Config, st: State, v: Visit): (State, bool) {
    var userpass := UserPass(v);
    var known := v.ip in st.users;
    var info := if known then st.users[v.ip] else BLANK.(tries := Some(0));
    if v.ip == CACHE then (st, false)
    else if userpass in st.cache then
      (st.(users := st.users[v.ip := info.(max := Some(1), user := Some(Shown(v.login)), pw := Some(Shown(v.passwd)))]),
       true)
    else
      var max, tries, tried := GetOr(info.max, v.draw), GetOr(info.tries, 0), GetOr(info.tried, []);
      var full := info.(max := Some(max), tries := Some(tries), tried := Some(tried));
      if userpass in tried then (st.(users := st.users[v.ip := full]), false)
      else
        var n := tries + 1;
        if n < max then
          (st.(users := st.users[v.ip := full.(tries := Some(n), tried := Some(tried + [userpass]))]), false)
        else if n == max then
          (State(st.users[v.ip := full.(tries := Some(n), user := Some(Shown(v.login)), pw := Some(Shown(v.passwd)))],
                 Remembered(cfg, st.cache, userpass)), true)
        else if info.user == None || info.pw == None then
          (st.(users := st.users[v.ip := full.(tries := Some(1), tried := Some(tried + [userpass]))]), false)
        else
          (st.(users := st.users[v.ip := full.(tries := Some(n))]),
           v.login == Str(info.user.value) && Shown(v.passwd) == info.pw.value)
  }

  class AuthRandom {
    const cfg: Config
    var users: map<string, Info>
    var cache: seq<string>

    constructor (parameters: Option<(int, int, int)>)
      ensures cfg == Bounds(parameters) && users == map[] && cache == []
    {
      cfg := Bounds(parameters);
      users, cache := map[], [];
    }

    /** `draw` stands for the one random number that a call may need; None is TypeError. */
    method CheckLogin(login: Text, passwd: Text, ip: string, draw: int) returns (r: Option<bool>)
      requires cfg.minTry <= draw <= cfg.maxTry
      modifies this
      ensures r == None <==> ip == "cache"
      ensures (State(users, cache), GetOr(r, false)) ==
        Check(cfg, old(State(users, cache)), Visit(ip, login, passwd, draw))
    {
      hide Shown;
      if ip == CACHE {
        return None;
      }
      var userpass := Shown(login) + ":" + Shown(passwd);
      var first := ip !in users;
      var info := if first then BLANK.(tries := Some(0)) else users[ip];
      if userpass in cache {
        users := users[ip := info.(max := Some(1), user := Some(Shown(login)), pw := Some(Shown(passwd)))];
        return Some(true);
      }
      if info.max == None {
        info := info.(max := Some(draw));
      }
      if info.tries == None {
        info := info.(tries := Some(0));
      }
      if info.tried == None {
        info := info.(tried := Some([]));
      }
      var auth := false;
      if userpass !in info.tried.value {
        info := info.(tries := Some(info.tries.value + 1));
        var attempts, need := info.tries.value, info.max.value;
        if attempts < need {
          info := info.(tried := Some(info.tried.value + [userpass]));
        } else if attempts == need {
          info := info.(user := Some(Shown(login)), pw := Some(Shown(passwd)));
          cache := cache + [userpass];
          if |cache| > cfg.maxCache {
            cache := cache[1..];
          }
          auth := true;
        } else if info.user == None || info.pw == None {
          info := info.(tried := Some(info.tried.value + [userpass]), tries := Some(1));
        } else {
          auth := login == Str(info.user.value) && Shown(passwd) == info.pw.value;
        }
      }
      // the local variable stands for the dict inside `uservar`, which the original updates directly
      users := users[ip := info];
      r := Some(auth);
    }
  }

  // The laws --------------------------------------------------------------------------------------

  /** A cache within its bound stays within it; a longer one does not grow. */
  lemma CacheBounded(cfg: Config, st: State, v: Visit)
    ensures var (st', auth) := Check(cfg, st, v);
      && (|st.cache| <= cfg.maxCache ==> |st'.cache| <= cfg.maxCache)
      && (|st.cache| >= cfg.maxCache ==> |st'.cache| <= |st.cache|)
      && (st'.cache != st.cache ==> auth)
  {
  }

  /** The record of an address that has made the attempts `seen`, all of them different, and has not
      been let in yet. */
  ghost predicate Pending(cfg: Config, info: Info, seen: set<string>) {
    && info.max.Some? && info.tries.Some? && info.tried.Some?
    && cfg.minTry <= info.max.value <= cfg.maxTry
    && info.tries.value == |info.tried.value| == |seen| && info.tries.value < info.max.value
    && (forall x :: x in seen <==> x in info.tried.value)
    && (forall i, j | 0 <= i < j < |info.tried.value| :: info.tried.value[i] != info.tried.value[j])
  }

  /** Before the first success: not seen yet, or pending. */
  ghost predicate Waiting(cfg: Config, st: State, ip: string, seen: set<string>) {
    if ip in st.users then Pending(cfg, st.users[ip], seen) else seen == {}
  }

  /** The number of different attempts that this address needs. */
  ghost function Need(st: State, v: Visit): int {
    if v.ip in st.users then GetOr(st.users[v.ip].max, v.draw) else v.draw
  }

  /** One attempt that the cache does not answer: it succeeds exactly if it is a new one that makes
      the number of different attempts equal to the number needed; otherwise the address waits on. */
  lemma Attempt(cfg: Config, st: State, v: Visit, seen: set<string>)
    requires 1 <= cfg.minTry <= v.draw <= cfg.maxTry && v.ip != CACHE
    requires Waiting(cfg, st, v.ip, seen) && UserPass(v) !in st.cache
    ensures var (st', auth) := Check(cfg, st, v);
      && cfg.minTry <= Need(st, v) <= cfg.maxTry
      && v.ip in st'.users && st'.users[v.ip].max == Some(Need(st, v))
      && (auth <==> UserPass(v) !in seen && |seen + {UserPass(v)}| == Need(st, v))
      && (!auth ==> Waiting(cfg, st', v.ip, seen + {UserPass(v)}))
  {
    var userpass := UserPass(v);
    if userpass in seen {
      assert seen + {userpass} == seen;
    } else {
      assert |seen + {userpass}| == |seen| + 1;
    }
  }

  lemma OthersKept(cfg: Config, st: State, v: Visit, ip: string)
    requires v.ip != ip
    ensures var st' := Check(cfg, st, v).0;
      (ip in st'.users <==> ip in st.users) && (ip in st.users ==> st'.users[ip] == st.users[ip])
  {
  }

  function Run(cfg: Config, st: State, visits: seq<Visit>): State {
    if |visits| == 0 then st
    else Check(cfg, Run(cfg, st, visits[..|visits| - 1]), visits[|visits| - 1]).0
  }

  /** Does visit `i` of the run get in? */
  function LetIn(cfg: Config, st: State, visits: seq<Visit>, i: nat): bool
    requires i < |visits|
  {
    Check(cfg, Run(cfg, st, visits[..i]), visits[i]).1
  }

  /** The cache answers visit `i` of the run. */
  function CacheHit(cfg: Config, st: State, visits: seq<Visit>, i: nat): bool
    requires i < |visits|
  {
    UserPass(visits[i]) in Run(cfg, st, visits[..i]).cache
  }

  /** The different attempts that an address makes in the first `i` visits. */
  ghost function Seen(visits: seq<Visit>, ip: string, i: nat): set<string>
    requires i <= |visits|
  {
    set k | 0 <= k < i && visits[k].ip == ip :: UserPass(visits[k])
  }

  /** No visit of the address among the first `i` got in or was answered by the cache. */
  ghost predicate Unlucky(cfg: Config, st: State, visits: seq<Visit>, ip: string, i: nat)
    requires i <= |visits|
  {
    forall k | 0 <= k < i && visits[k].ip == ip :: !LetIn(cfg, st, visits, k) && !CacheHit(cfg, st, visits, k)
  }

  ghost predicate Draws(cfg: Config, visits: seq<Visit>) {
    1 <= cfg.minTry && forall v | v in visits :: cfg.minTry <= v.draw <= cfg.maxTry
  }

  /** The number drawn at the first visit of the address. */
  function FirstDraw(visits: seq<Visit>, ip: string): int {
    if |visits| == 0 then 0 else if visits[0].ip == ip then visits[0].draw else FirstDraw(visits[1..], ip)
  }

  lemma {:induction false} FirstDrawAt(visits: seq<Visit>, ip: string, i: nat)
    requires i < |visits| && visits[i].ip == ip && forall k | 0 <= k < i :: visits[k].ip != ip
    ensures FirstDraw(visits, ip) == visits[i].draw
  {
    if i > 0 {
      FirstDrawAt(visits[1..], ip, i - 1);
    }
  }

  /** An address without a record has not visited, one with a record has the number of its first visit. */
  ghost predicate Keeps(st: State, visits: seq<Visit>, ip: string, i: nat)
    requires i <= |visits|
  {
    if ip in st.users then st.users[ip].max == Some(FirstDraw(visits, ip))
    else forall k | 0 <= k < i :: visits[k].ip != ip
  }

  lemma KeepsOn(cfg: Config, st: State, visits: seq<Visit>, ip: string, i: nat)
    requires i < |visits| && ip != CACHE && Keeps(st, visits, ip, i)
    requires visits[i].ip == ip ==> UserPass(visits[i]) !in st.cache
    ensures visits[i].ip == ip ==> Need(st, visits[i]) == FirstDraw(visits, ip)
    ensures Keeps(Check(cfg, st, visits[i]).0, visits, ip, i + 1)
  {
    if visits[i].ip != ip {
      OthersKept(cfg, st, visits[i], ip);
    } else if ip !in st.users {
      FirstDrawAt(visits, ip, i);
    }
  }

  /** Whatever other addresses do in between, a new address that has not been let in yet is waiting
      with exactly its own different attempts on record, and with the number drawn at its first visit. */
  lemma {:induction false} WaitingThroughout(cfg: Config, st: State, visits: seq<Visit>, ip: string, i: nat)
    requires Draws(cfg, visits) && ip !in st.users && ip != CACHE
    requires i <= |visits| && Unlucky(cfg, st, visits, ip, i)
    ensures Waiting(cfg, Run(cfg, st, visits[..i]), ip, Seen(visits, ip, i))
    ensures Keeps(Run(cfg, st, visits[..i]), visits, ip, i)
  {
    hide Check, Waiting, Need, Seen, Keeps, FirstDraw;
    if i == 0 {
      WaitingAtFirst(cfg, st, visits, ip);
    } else {
      WaitingThroughout(cfg, st, visits, ip, i - 1);
      var v, before := visits[i - 1], Run(cfg, st, visits[..i - 1]);
      assert v in visits && visits[..i][..i - 1] == visits[..i - 1];
      assert Run(cfg, st, visits[..i]) == Check(cfg, before, v).0;
      SeenStep(visits, ip, i - 1);
      KeepsOn(cfg, before, visits, ip, i - 1);
      if v.ip == ip {
        assert !LetIn(cfg, st, visits, i - 1) && !CacheHit(cfg, st, visits, i - 1);
        Attempt(cfg, before, v, Seen(visits, ip, i - 1));
      } else {
        WaitingKept(cfg, before, v, ip, Seen(visits, ip, i - 1));
      }
    }
  }

  lemma WaitingAtFirst(cfg: Config, st: State, visits: seq<Visit>, ip: string)
    requires ip !in st.users
    ensures Waiting(cfg, Run(cfg, st, visits[..0]), ip, Seen(visits, ip, 0))
    ensures Keeps(Run(cfg, st, visits[..0]), visits, ip, 0)
  {
  }

  lemma WaitingKept(cfg: Config, st: State, v: Visit, ip: string, seen: set<string>)
    requires v.ip != ip && Waiting(cfg, st, ip, seen)
    ensures Waiting(cfg, Check(cfg, st, v).0, ip, seen)
  {
    OthersKept(cfg, st, v, ip);
  }

  lemma SeenStep(visits: seq<Visit>, ip: string, i: nat)
    requires i < |visits|
    ensures Seen(visits, ip, i + 1) ==
      if visits[i].ip == ip then Seen(visits, ip, i) + {UserPass(visits[i])} else Seen(visits, ip, i)
  {
  }

  /** A new address gets in for the first time exactly at the attempt that makes the number of its
      different attempts equal to the number drawn at its first visit, between the two bounds. */
  lemma FirstSuccess(cfg: Config, st: State, visits: seq<Visit>, ip: string, i: nat)
    requires Draws(cfg, visits) && ip !in st.users && ip != CACHE
    requires i < |visits| && visits[i].ip == ip
    requires Unlucky(cfg, st, visits, ip, i) && !CacheHit(cfg, st, visits, i)
    ensures var need := FirstDraw(visits, ip);
      && cfg.minTry <= need <= cfg.maxTry && |Seen(visits, ip, i)| < need
      && (LetIn(cfg, st, visits, i) <==> |Seen(visits, ip, i + 1)| == need)
  {
    hide Check, Seen, Keeps, FirstDraw;
    WaitingThroughout(cfg, st, visits, ip, i);
    var seen, before := Seen(visits, ip, i), Run(cfg, st, visits[..i]);
    assert visits[i] in visits;
    SeenStep(visits, ip, i);
    KeepsOn(cfg, before, visits, ip, i);
    Attempt(cfg, before, visits[i], seen);
    if UserPass(visits[i]) in seen {
      assert seen + {UserPass(visits[i])} == seen;
    }
  }

  /** No run makes the cache longer than its bound. */
  lemma {:induction false} CacheBoundedThroughout(cfg: Config, st: State, visits: seq<Visit>)
    requires |st.cache| <= cfg.maxCache
    ensures |Run(cfg, st, visits).cache| <= cfg.maxCache
    decreases |visits|
  {
    if |visits| > 0 {
      CacheBoundedThroughout(cfg, st, visits[..|visits| - 1]);
      CacheBounded(cfg, Run(cfg, st, visits[..|visits| - 1]), visits[|visits| - 1]);
    }
  }

  /** How many failed attempts are on record. */
  function Tries(st: State, ip: string): int {
    if ip in st.users then GetOr(st.users[ip].tries, 0) else 0
  }

  function Tried(st: State, ip: string): seq<string> {
    if ip in st.users then GetOr(st.users[ip].tried, []) else []
  }

  /** `w` repeats the combination of `v` in a form that the record knows: the password may have any, but
      the login must be a `str`, and equal to the `str` of the login it repeats. */
  predicate Repeats(v: Visit, w: Visit) {
    w.login == Str(Shown(v.login)) && Shown(w.passwd) == Shown(v.passwd)
  }

  /** Who gets in after visit `v` got in, when the cache does not answer: a repetition, unless its
      combination is among the attempts that failed; but anybody, if it was the cache that let in an
      address without attempts. */
  lemma Returns(cfg: Config, st: State, v: Visit, w: Visit)
    requires Check(cfg, st, v).1 && w.ip == v.ip && UserPass(w) !in Check(cfg, st, v).0.cache
    requires Tries(st, v.ip) >= 0
    ensures Check(cfg, Check(cfg, st, v).0, w).1 <==>
      && UserPass(w) !in Tried(st, v.ip)
      && (Repeats(v, w) || (UserPass(v) in st.cache && Tries(st, v.ip) == 0))
  {
    hide Shown;
    StrShown();
  }

  lemma StrShown()
    ensures forall s :: Shown(Str(s)) == s
  {
  }

  /** The new address with the cached combination, and then with another one. */
  lemma AnybodyAfterTheCache(cfg: Config, v: Visit, w: Visit)
    requires v.ip == w.ip != CACHE && UserPass(v) != UserPass(w)
    ensures var st := State(map[], [UserPass(v)]);
      Check(cfg, st, v).1 && Check(cfg, Check(cfg, st, v).0, w).1
  {
    hide Shown, UserPass;
    Returns(cfg, State(map[], [UserPass(v)]), v, w);
  }

  /** The address has been let in with the visit's login and password, which are on record. */
  ghost predicate Settled(info: Info, v: Visit) {
    && info.user == Some(Shown(v.login)) && info.pw == Some(Shown(v.passwd))
    && info.max.Some? && info.tries.Some? && info.tried.Some?
    && info.tries.value >= info.max.value && UserPass(v) !in info.tried.value
  }

  /** From the first success on, a repetition of the combination that let the address in, and nothing
      else that the cache does not know, lets it in again, as long as the cache does not let it in with
      another combination. */
  lemma ComesBack(cfg: Config, st: State, v: Visit, seen: set<string>, w: Visit)
    requires 1 <= cfg.minTry <= v.draw <= cfg.maxTry && v.ip != CACHE
    requires UserPass(v) !in st.cache
    ensures Waiting(cfg, st, v.ip, seen) && Check(cfg, st, v).1 ==> Settled(Check(cfg, st, v).0.users[v.ip], v)
    ensures v.ip in st.users && Settled(st.users[v.ip], v) && w.ip == v.ip && UserPass(w) !in st.cache ==>
      (Check(cfg, st, w).1 <==> Repeats(v, w))
    ensures v.ip in st.users && Settled(st.users[v.ip], v) && (w.ip == v.ip ==> UserPass(w) !in st.cache) ==>
      var st' := Check(cfg, st, w).0; v.ip in st'.users && Settled(st'.users[v.ip], v)
  {
    hide Shown;
    StrShown();
    if Waiting(cfg, st, v.ip, seen) {
      Attempt(cfg, st, v, seen);
    }
  }

  /** The address has got in, and has used up the attempts it needed. */
  ghost predicate Past(st: State, ip: string) {
    && ip in st.users
    && var info := st.users[ip];
       && info.user.Some? && info.pw.Some? && info.max.Some? && info.tries.Some?
       && info.tries.value >= info.max.value
  }

  /** Whoever got in is past that, except a new address, without attempts, that the cache let in. */
  lemma PastOnceIn(cfg: Config, st: State, v: Visit)
    requires Check(cfg, st, v).1 && Tries(st, v.ip) >= 0
    ensures Past(Check(cfg, st, v).0, v.ip) <==> !(UserPass(v) in st.cache && Tries(st, v.ip) == 0)
  {
    hide Shown, UserPass;
  }

  lemma PastStays(cfg: Config, st: State, v: Visit, ip: string)
    requires Past(st, ip) && (v.ip == ip ==> v.login.Raw? && UserPass(v) !in st.cache)
    ensures Past(Check(cfg, st, v).0, ip) && (v.ip == ip ==> !Check(cfg, st, v).1)
  {
    hide Shown, UserPass;
    if v.ip != ip {
      OthersKept(cfg, st, v, ip);
    }
  }

  /** An address past its first success that logs in with bytes never gets in again, whatever its login
      and password are and whatever other addresses do, until the cache answers it. */
  lemma {:induction false} BytesNeverReturn(cfg: Config, st: State, visits: seq<Visit>, ip: string, i: nat)
    requires Past(st, ip) && i <= |visits|
    requires forall k | 0 <= k < i && visits[k].ip == ip :: visits[k].login.Raw? && !CacheHit(cfg, st, visits, k)
    ensures Past(Run(cfg, st, visits[..i]), ip)
    ensures forall k | 0 <= k < i && visits[k].ip == ip :: !LetIn(cfg, st, visits, k)
  {
    hide Check, Past;
    if i > 0 {
      BytesNeverReturn(cfg, st, visits, ip, i - 1);
      assert visits[..i][..i - 1] == visits[..i - 1];
      PastStays(cfg, Run(cfg, st, visits[..i - 1]), visits[i - 1], ip);
    } else {
      assert visits[..0] == [];
    }
  }

  /** The same bytes twice from a new address, with one attempt needed and a cache that keeps nothing:
      the first visit gets in and the second does not. */
  lemma SameBytesAgain(v: Visit)
    requires v.ip != CACHE && v.login.Raw? && v.draw == 1
    ensures var cfg, st := Config(1, 1, 0), State(map[], []);
      Check(cfg, st, v).1 && !Check(cfg, Check(cfg, st, v).0, v).1
  {
    hide Shown, UserPass;
  }

  // The cache -------------------------------------------------------------------------------------

  /** The visit is the one that the address has needed: a new combination that neither the cache nor the
      address knows, and the last of as many as were drawn. */
  predicate Reaches(st: State, v: Visit) {
    && v.ip != CACHE && UserPass(v) !in st.cache && UserPass(v) !in Tried(st, v.ip)
    && Tries(st, v.ip) + 1 == NeedOf(st, v)
  }

  function NeedOf(st: State, v: Visit): int {
    if v.ip in st.users && st.users[v.ip].max.Some? then st.users[v.ip].max.value else v.draw
  }

  /** The combinations of the visits of a run that were the ones needed, in order. */
  function Winners(cfg: Config, st: State, visits: seq<Visit>): seq<string> {
    if |visits| == 0 then []
    else
      var n := |visits| - 1;
      Winners(cfg, st, visits[..n])
      + if Reaches(Run(cfg, st, visits[..n]), visits[n]) then [UserPass(visits[n])] else []
  }

  /** From an empty cache on, the cache holds, in order, exactly the last `maxCache` of the combinations
      that let an address in by its own attempts: the oldest goes first. */
  lemma {:induction false} CacheHolds(cfg: Config, st: State, visits: seq<Visit>)
    requires st.cache == []
    ensures var ws := Winners(cfg, st, visits);
      Run(cfg, st, visits).cache == ws[|ws| - Kept(cfg, |ws|)..]
    decreases |visits|
  {
    hide Check, Reaches;
    if |visits| > 0 {
      var n := |visits| - 1;
      CacheHolds(cfg, st, visits[..n]);
      CacheStep(cfg, Run(cfg, st, visits[..n]), visits[n]);
      var ws := Winners(cfg, st, visits[..n]);
      LastKept(ws, UserPass(visits[n]), Kept(cfg, |ws|), Kept(cfg, |ws| + 1));
    }
  }

  /** How many of `n` combinations the cache has room for. */
  function Kept(cfg: Config, n: nat): (k: nat)
    ensures k <= n
  {
    if cfg.maxCache <= 0 then 0 else if n <= cfg.maxCache then n else cfg.maxCache
  }

  lemma LastKept(ws: seq<string>, w: string, k: nat, k': nat)
    requires k <= |ws| && k' <= k + 1
    ensures var all := ws + [w]; (ws[|ws| - k..] + [w])[k + 1 - k'..] == all[|all| - k'..]
  {
  }

  /** One visit adds its combination behind the others if it is the one needed, and then the first goes
      if there is no room; nothing else touches the cache. */
  lemma CacheStep(cfg: Config, st: State, v: Visit)
    ensures var longer := st.cache + [UserPass(v)];
      Check(cfg, st, v).0.cache ==
        if !Reaches(st, v) then st.cache
        else if |longer| > cfg.maxCache then longer[1..]
        else longer
    ensures Reaches(st, v) ==> Check(cfg, st, v).1
  {
    hide UserPass;
  }

  /** So a combination that let one address in lets in every other at its first visit, exactly until the
      cache has been filled up by later ones. */
  lemma LetsOthersIn(cfg: Config, st: State, visits: seq<Visit>, v: Visit)
    requires st.cache == [] && v.ip != CACHE
    ensures var ws := Winners(cfg, st, visits); var now := Run(cfg, st, visits);
      && (UserPass(v) in now.cache <==>
           exists j :: 0 <= j < |ws| && ws[j] == UserPass(v) && |ws| - j <= cfg.maxCache)
      && (UserPass(v) in now.cache ==> Check(cfg, now, v).1)
      && (UserPass(v) !in now.cache && v.ip !in now.users && v.draw > 1 ==> !Check(cfg, now, v).1)
  {
    hide UserPass, Winners, Run;
    CacheHolds(cfg, st, visits);
    var ws, up := Winners(cfg, st, visits), UserPass(v);
    var n := |ws| - Kept(cfg, |ws|);
    if j :| 0 <= j < |ws| && ws[j] == up && |ws| - j <= cfg.maxCache {
      assert ws[n..][j - n] == up;
    }
    if up in ws[n..] {
      var i :| 0 <= i < |ws[n..]| && ws[n..][i] == up;
      assert ws[n + i] == up;
    }
  }

  /** An address whose record has lost the login or the password that let it in starts again: the visit
      counts as its first attempt. */
  lemma LostRecord(cfg: Config, st: State, v: Visit)
    requires v.ip in st.users && v.ip != CACHE && UserPass(v) !in st.cache
    requires var info := st.users[v.ip];
      && info.max.Some? && info.tries.Some? && info.tries.value >= info.max.value
      && (info.user == None || info.pw == None) && UserPass(v) !in Tried(st, v.ip)
    ensures var (st', auth) := Check(cfg, st, v);
      !auth && Tries(st', v.ip) == 1 && Tried(st', v.ip) == Tried(st, v.ip) + [UserPass(v)]
  {
    hide UserPass;
  }

  /** A login compared with the one on record counts as a try, and leaves the rest of the record alone. */
  lemma ComparedCounts(cfg: Config, st: State, v: Visit)
    requires v.ip in st.users && v.ip != CACHE && UserPass(v) !in st.cache
    requires var info := st.users[v.ip];
      && info.max.Some? && info.tries.Some? && info.tries.value >= info.max.value
      && info.tried.Some? && info.user.Some? && info.pw.Some? && UserPass(v) !in Tried(st, v.ip)
    ensures var now, was := Check(cfg, st, v).0.users[v.ip], st.users[v.ip];
      now.tries == Some(was.tries.value + 1) && now.(tries := was.tries) == was
  {
    hide UserPass;
  }

  /** How texts look on record. */
  lemma TextsOnRecord()
    ensures Shown(Str("root")) == "root" && Shown(Raw([104, 105])) == "b'hi'" && Shown(Raw([39, 0])) == "b\"'\\x00\""
    ensures UserPass(Visit("1.2.3.4", Str("root"), Str("admin"), 2)) == "root:admin"
  {
    hide Escaped;
    var hi, quoted: Bytes := [104, 105], [39, 0];
    EscapedOne(104, '\'', [105]);
    EscapedOne(105, '\'', []);
    EscapedOne(39, '"', [0]);
    EscapedOne(0, '"', []);
    assert [104] + [105] == hi && [39] + [0] == quoted && quoted[0] == 39;
    assert Escaped(hi, '\'') == "hi" && Escaped(quoted, '"') == "'\\x00";
    assert hi[0] != 39 && hi[1] != 39;
    assert "b" + "'" + "hi" + "'" == "b'hi'";
    assert "b" + "\"" + "'\\x00" + "\"" == "b\"'\\x00\"";
  }

  lemma EscapedOne(c: Byte, quote: char, more: Bytes)
    ensures Escaped([c] + more, quote) ==
      (if c as int == quote as int || c == 92 then ['\\', c as char]
       else if c == 9 then "\\t"
       else if c == 10 then "\\n"
       else if c == 13 then "\\r"
       else if 32 <= c < 127 then [c as char]
       else "\\x" + [HEX[c / 16], HEX[c % 16]]) + Escaped(more, quote)
    ensures Escaped([], quote) == ""
    ensures [c] + [] == [c]
  {
    assert ([c] + more)[1..] == more;
  }
}
