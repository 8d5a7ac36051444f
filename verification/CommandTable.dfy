/** The names in the command table, and which of them are never queued. */
module CommandTable {
  import opened Transactions

  const TRANSACTIONS: set<string> := {"discard", "exec", "multi"}
  const LISTS: set<string> := {
    "blpop", "brpop", "brpoplpush", "lindex", "llen", "lpop", "lpush", "lrange", "lrem", "lset", "ltrim",
    "rpop", "rpoplpush", "rpush"
  }
  const SETS: set<string> := {
    "sadd", "scard", "sdiff", "sinter", "sinterstore", "sismember", "smembers", "smove", "srem", "sunion",
    "sunionstore"
  }
  const SORTED_SETS: set<string> := {
    "zadd", "zcard", "zcount", "zincrby", "zrange", "zrangebyscore", "zrank", "zrem", "zscore"
  }
  const STRINGS: set<string> := {"decr", "decrby", "get", "getset", "incr", "incrby", "mget", "mset", "set", "setnx"}
  const HASHES: set<string> := {"hget", "hgetall", "hmset", "hset"}
  const KEYS: set<string> := {
    "del", "exists", "expire", "keys", "move", "pexpire", "randomkey", "rename", "renamenx", "ttl", "type"
  }
  const SERVER: set<string> := {
    "client", "dbsize", "echo", "eval", "evalsha", "flushall", "flushdb", "info", "ping", "publish", "quit",
    "script", "select", "subscribe", "time", "unsubscribe"
  }

  const NAMES := TRANSACTIONS + LISTS + SETS + SORTED_SETS + STRINGS + HASHES + KEYS + SERVER

  /** A name of three letters or more can only start where its first three letters stand. */
  predicate Starts(a: char, b: char, c: char) {
    exists i :: 0 <= i < |ALWAYS_AT_ONCE| - 2 && ALWAYS_AT_ONCE[i] == a && ALWAYS_AT_ONCE[i + 1] == b && ALWAYS_AT_ONCE[i + 2] == c
  }

  lemma {:induction false} ContainedStarts(text: string, part: string) returns (i: nat)
    requires Contains(text, part) && |part| > 0
    ensures i + |part| <= |text| && text[i..i + |part|] == part
  {
    if text[..|part|] == part {
      i := 0;
    } else {
      i := ContainedStarts(text[1..], part);
      assert text[1..][i..i + |part|] == text[i + 1..i + 1 + |part|];
      i := i + 1;
    }
  }

  lemma {:induction false} LowerAt(s: string, i: nat)
    requires i < |s|
    ensures Lower(s)[i] == LowerChar(s[i])
  {
    if i > 0 {
      LowerAt(s[1..], i - 1);
    }
  }

  lemma BypassStarts(name: string)
    requires |name| >= 3 && Bypasses(name)
    ensures Starts(LowerChar(name[0]), LowerChar(name[1]), LowerChar(name[2]))
  {
    hide Contains, Lower;
    var lower := Lower(name);
    var i := ContainedStarts(ALWAYS_AT_ONCE, lower);
    LowerAt(name, 0);
    LowerAt(name, 1);
    LowerAt(name, 2);
    var part := ALWAYS_AT_ONCE[i..i + |lower|];
    assert part[0] == ALWAYS_AT_ONCE[i] && part[1] == ALWAYS_AT_ONCE[i + 1] && part[2] == ALWAYS_AT_ONCE[i + 2];
  }

  /** The threes of letters in the text of the three names. */
  predicate Three(a: char, b: char, c: char) {
    || (a == 'e' && b == 'x' && c == 'e')
    || (a == 'x' && b == 'e' && c == 'c')
    || (a == 'd' && b == 'i' && c == 's')
    || (a == 'i' && b == 's' && c == 'c')
    || (a == 's' && b == 'c' && c == 'a')
    || (a == 'c' && b == 'a' && c == 'r')
    || (a == 'a' && b == 'r' && c == 'd')
    || (a == 'm' && b == 'u' && c == 'l')
    || (a == 'u' && b == 'l' && c == 't')
    || (a == 'l' && b == 't' && c == 'i')
  }

  lemma StartsAre(a: char, b: char, c: char)
    requires Starts(a, b, c) && a != ' ' && b != ' ' && c != ' '
    ensures Three(a, b, c)
  {
  }

  /** Of the whole table, only EXEC, DISCARD, MULTI and, by accident, SCARD are never queued. */
  lemma OnlyThese()
    ensures forall name :: name in NAMES ==> (Bypasses(name) <==> name in {"exec", "discard", "multi", "scard"})
  {
    hide Bypasses;
    forall name | name in NAMES
      ensures Bypasses(name) <==> name in {"exec", "discard", "multi", "scard"}
    {
      if name in {"exec", "discard", "multi", "scard"} {
        TheseBypass(name);
      } else {
        OthersDoNot(name);
      }
    }
  }

  lemma TheseBypass(name: string)
    requires name in {"exec", "discard", "multi", "scard"}
    ensures Bypasses(name)
  {
    hide Bypasses;
    if name == "exec" {
      StandsAt("exec", 0);
    } else if name == "discard" {
      StandsAt("discard", 5);
    } else if name == "multi" {
      StandsAt("multi", 13);
    } else {
      StandsAt("scard", 7);
    }
  }

  lemma StandsAt(name: string, i: nat)
    requires forall k :: 0 <= k < |name| ==> LowerChar(name[k]) == name[k]
    requires i + |name| <= |ALWAYS_AT_ONCE| && ALWAYS_AT_ONCE[i..i + |name|] == name
    ensures Bypasses(name)
  {
    hide Contains, Lower;
    LowerSame(name);
    ContainsAt(ALWAYS_AT_ONCE, name, i);
  }

  lemma {:induction false} LowerSame(s: string)
    requires forall i :: 0 <= i < |s| ==> LowerChar(s[i]) == s[i]
    ensures Lower(s) == s
  {
    if |s| > 0 {
      LowerSame(s[1..]);
    }
  }

  /** A name in small letters that starts unlike any part of the text. */
  predicate Unlike(name: string) {
    && |name| >= 3
    && 'a' <= name[0] <= 'z' && 'a' <= name[1] <= 'z' && 'a' <= name[2] <= 'z'
    && !Three(name[0], name[1], name[2])
  }

  lemma UnlikeDoesNot(name: string)
    requires Unlike(name)
    ensures !Bypasses(name)
  {
    hide Bypasses, Starts;
    if Bypasses(name) {
      BypassStarts(name);
      StartsAre(name[0], name[1], name[2]);
    }
  }

  lemma ListsUnlike(name: string)
    requires name in LISTS
    ensures Unlike(name)
  {
  }

  lemma SetsUnlike(name: string)
    requires name in SETS && name != "scard"
    ensures Unlike(name)
  {
  }

  lemma SortedSetsUnlike(name: string)
    requires name in SORTED_SETS
    ensures Unlike(name)
  {
  }

  lemma StringsUnlike(name: string)
    requires name in STRINGS
    ensures Unlike(name)
  {
  }

  lemma HashesUnlike(name: string)
    requires name in HASHES
    ensures Unlike(name)
  {
  }

  lemma KeysUnlike(name: string)
    requires name in KEYS
    ensures Unlike(name)
  {
  }

  lemma ServerUnlike(name: string)
    requires name in SERVER
    ensures Unlike(name)
  {
  }

  lemma OthersDoNot(name: string)
    ensures name in NAMES && name !in {"exec", "discard", "multi", "scard"} ==> !Bypasses(name)
  {
    hide Bypasses, Unlike;
    if name in LISTS {
      ListsUnlike(name);
    } else if name in SETS && name != "scard" {
      SetsUnlike(name);
    } else if name in SORTED_SETS {
      SortedSetsUnlike(name);
    } else if name in STRINGS {
      StringsUnlike(name);
    } else if name in HASHES {
      HashesUnlike(name);
    } else if name in KEYS {
      KeysUnlike(name);
    } else if name in SERVER {
      ServerUnlike(name);
    }
    if Unlike(name) {
      UnlikeDoesNot(name);
    }
  }
}
