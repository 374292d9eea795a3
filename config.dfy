/** The `!config <key> <value>` command of `handle_config`
    (main.py:135-159): the in-memory configuration loaded from `config.json`,
    the whitespace split of the command, the coercion of the new value to the
    type of the old one, and the rewrite of the file. */
module Config {
  import opened Options
  import Ascii
  import Numerals

  /** A JSON value as `json.load` returns it. */
  datatype Value =
    | Bool(b: bool)
    | Int(i: int)
    | Str(s: string)
    | Float(f: real)
    | Null
    | List(items: seq<Value>)
    | Object(fields: map<string, Value>)

  // ---- `str.split(maxsplit=2)` ----

  /** The first position at or after `i` that is not whitespace. */
  function SkipSpace(s: string, i: nat): (j: nat)
    requires i <= |s|
    ensures i <= j <= |s|
    ensures j == |s| || !Ascii.IsSpace(s[j])
    decreases |s| - i
  {
    if i == |s| || !Ascii.IsSpace(s[i]) then i else SkipSpace(s, i + 1)
  }

  /** The first position at or after `i` that is whitespace. */
  function SkipWord(s: string, i: nat): (j: nat)
    requires i <= |s|
    ensures i <= j <= |s|
    ensures i < |s| && !Ascii.IsSpace(s[i]) ==> i < j
    decreases |s| - i
  {
    if i == |s| || Ascii.IsSpace(s[i]) then i else SkipWord(s, i + 1)
  }

  /** `SkipSpace` passes over whitespace only. */
  lemma {:induction false} SkipSpaceFacts(s: string, i: nat)
    requires i <= |s|
    ensures forall k :: i <= k < SkipSpace(s, i) ==> Ascii.IsSpace(s[k])
    decreases |s| - i
  {
    if i < |s| && Ascii.IsSpace(s[i]) {
      SkipSpaceFacts(s, i + 1);
    }
  }

  /** `SkipWord` passes over a run of non-blanks, up to whitespace or the end. */
  lemma {:induction false} SkipWordFacts(s: string, i: nat)
    requires i <= |s|
    ensures forall k :: i <= k < SkipWord(s, i) ==> !Ascii.IsSpace(s[k])
    ensures SkipWord(s, i) == |s| || Ascii.IsSpace(s[SkipWord(s, i)])
    decreases |s| - i
  {
    if i < |s| && !Ascii.IsSpace(s[i]) {
      SkipWordFacts(s, i + 1);
    }
  }

  predicate IsWord(w: string) {
    w != [] && forall k :: 0 <= k < |w| ==> !Ascii.IsSpace(w[k])
  }

  /** CPython's whitespace split of `s[i..]` with at most `maxsplit` splits:
      runs of whitespace separate the words, none is empty, and once
      `maxsplit` words are taken the rest, after its leading whitespace, is
      the last part, trailing whitespace included. */
  function SplitFrom(s: string, i: nat, maxsplit: nat): (parts: seq<string>)
    requires i <= |s|
    ensures |parts| <= maxsplit + 1
    ensures forall k :: 0 <= k < |parts| ==> parts[k] != []
    decreases |s| - i
  {
    var j := SkipSpace(s, i);
    if j == |s| then []
    else if maxsplit == 0 then [s[j..]]
    else
      var k := SkipWord(s, j);
      [s[j..k]] + SplitFrom(s, k, maxsplit - 1)
  }

  /** `content.split(maxsplit=2)` */
  function Split(content: string): (parts: seq<string>)
    ensures |parts| <= 3
    ensures forall k :: 0 <= k < |parts| ==> parts[k] != []
  {
    SplitFrom(content, 0, 2)
  }

  /** Every part but a last one taken after `maxsplit` splits is a word, and
      that last part starts with a non-blank. */
  lemma {:induction false} SplitFromWords(s: string, i: nat, maxsplit: nat)
    requires i <= |s|
    ensures var parts := SplitFrom(s, i, maxsplit);
      forall k :: 0 <= k < |parts| && k < maxsplit ==> IsWord(parts[k])
    ensures var parts := SplitFrom(s, i, maxsplit);
      |parts| == maxsplit + 1 ==> !Ascii.IsSpace(parts[maxsplit][0])
    decreases |s| - i
  {
    var j := SkipSpace(s, i);
    if j < |s| && maxsplit > 0 {
      var k := SkipWord(s, j);
      SkipWordFacts(s, j);
      SplitFromWords(s, k, maxsplit - 1);
      assert IsWord(s[j..k]);
      WordsCons(s[j..k], SplitFrom(s, k, maxsplit - 1), maxsplit);
    }
  }

  /** A word put in front of parts that satisfy the word property for
      `maxsplit - 1` gives parts that satisfy it for `maxsplit`. */
  lemma WordsCons(w: string, rest: seq<string>, maxsplit: nat)
    requires maxsplit > 0 && IsWord(w)
    requires forall k :: 0 <= k < |rest| && k < maxsplit - 1 ==> IsWord(rest[k])
    requires |rest| == maxsplit ==> rest[maxsplit - 1] != [] && !Ascii.IsSpace(rest[maxsplit - 1][0])
    ensures var parts := [w] + rest;
      forall k :: 0 <= k < |parts| && k < maxsplit ==> IsWord(parts[k])
    ensures var parts := [w] + rest;
      |parts| == maxsplit + 1 ==> parts[maxsplit] != [] && !Ascii.IsSpace(parts[maxsplit][0])
  {
  }

  /** The key and the value of a three-part command: the key is one word and
      the value does not start with whitespace. */
  lemma SplitParts(content: string)
    requires |Split(content)| == 3
    ensures IsWord(Split(content)[0]) && IsWord(Split(content)[1])
    ensures Split(content)[2] != [] && !Ascii.IsSpace(Split(content)[2][0])
  {
    SplitFromWords(content, 0, 2);
  }

  lemma {:induction false} SkipWordOver(s: string, i: nat, w: string)
    requires i + |w| <= |s| && s[i..i + |w|] == w
    requires forall k :: 0 <= k < |w| ==> !Ascii.IsSpace(w[k])
    requires i + |w| == |s| || Ascii.IsSpace(s[i + |w|])
    ensures SkipWord(s, i) == i + |w|
    decreases |w|
  {
    if w != [] {
      assert s[i] == w[0];
      assert s[i + 1..i + 1 + |w[1..]|] == w[1..];
      SkipWordOver(s, i + 1, w[1..]);
    }
  }

  /** A blank in front of a non-blank is skipped over. */
  lemma SplitFromBlank(s: string, i: nat, maxsplit: nat)
    requires i + 1 < |s| && Ascii.IsSpace(s[i]) && !Ascii.IsSpace(s[i + 1])
    ensures SplitFrom(s, i, maxsplit) == SplitFrom(s, i + 1, maxsplit)
  {
    assert SkipSpace(s, i + 1) == i + 1;
  }

  /** At a non-blank, the next word is split off while splits remain. */
  lemma SplitFromWord(s: string, i: nat, maxsplit: nat, k: nat)
    requires i < |s| && !Ascii.IsSpace(s[i]) && maxsplit > 0 && k == SkipWord(s, i)
    ensures SplitFrom(s, i, maxsplit) == [s[i..k]] + SplitFrom(s, k, maxsplit - 1)
  {
  }

  /** At a non-blank with no split left, the rest is the last part. */
  lemma SplitFromRest(s: string, i: nat)
    requires i < |s| && !Ascii.IsSpace(s[i])
    ensures SplitFrom(s, i, 0) == [s[i..]]
  {
  }

  /** A blank, a word, a blank and a text starting with a non-blank split,
      with one split left, into the word and the text. */
  lemma SplitTail(s: string, a: nat, b: nat)
    requires a + 1 < b < |s| - 1 && s[a] == ' ' && s[b] == ' ' && !Ascii.IsSpace(s[b + 1])
    requires IsWord(s[a + 1..b])
    ensures SplitFrom(s, a, 1) == [s[a + 1..b], s[b + 1..]]
  {
    SkipWordOver(s, a + 1, s[a + 1..b]);
    assert s[a + 1] == s[a + 1..b][0];
    SplitFromBlank(s, b, 0);
    SplitFromRest(s, b + 1);
    SplitFromBlank(s, a, 1);
    SplitFromWord(s, a + 1, 1, b);
  }

  /** A word, a blank, a word, a blank and a text starting with a non-blank
      split into the two words and the text. */
  lemma SplitAt(s: string, a: nat, b: nat)
    requires 0 < a < b < |s| - 1 && s[a] == ' ' && s[b] == ' ' && !Ascii.IsSpace(s[b + 1])
    requires IsWord(s[..a]) && IsWord(s[a + 1..b])
    ensures Split(s) == [s[..a], s[a + 1..b], s[b + 1..]]
  {
    SkipWordOver(s, 0, s[..a]);
    assert s[0] == s[..a][0];
    SplitFromWord(s, 0, 2, a);
    SplitTail(s, a, b);
    assert s[0..a] == s[..a];
  }

  /** Splitting a command written as two words and a value, separated by
      single spaces, gives back the two words and the value. */
  lemma SplitJoin(command: string, key: string, value: string)
    requires IsWord(command) && IsWord(key)
    requires value != [] && !Ascii.IsSpace(value[0])
    ensures Split(command + " " + key + " " + value) == [command, key, value]
  {
    var s := command + " " + key + " " + value;
    var a := |command|;
    var b := a + 1 + |key|;
    assert s[..a] == command && s[a] == ' ';
    assert s[a + 1..b] == key && s[b] == ' ';
    assert s[b + 1..] == value;
    SplitAt(s, a, b);
  }

  // ---- Value coercion ----

  /** The spellings the bool branch reads as true. */
  const TrueWords: seq<string> := ["true", "1", "yes"]

  /** The new value for a key whose current value is `current`: a bool is
      read from its spelling (main.py:145-146), an int with `int()`
      (main.py:147-148), and anything else is replaced by the raw text
      (main.py:149-150). `None` is the `ValueError` of `int()`. */
  function Coerce(current: Value, raw: string): Option<Value> {
    match current
    case Bool(_) => Some(Bool(Ascii.Lower(raw) in TrueWords))
    case Int(_) =>
      (match Numerals.ParseInt(raw, 10)
       case None => None
       case Some(n) => Some(Int(n)))
    case _ => Some(Str(raw))
  }

  /** The bool branch ignores case: "TRUE", "True" and "true" all give true. */
  lemma BoolIgnoresCase(current: Value, a: string, b: string)
    requires current.Bool?
    requires Ascii.Lower(a) == Ascii.Lower(b)
    ensures Coerce(current, a) == Coerce(current, b)
  {
  }

  /** A bool is read as true exactly for the three spellings, in any case;
      every other text, "false" and "" included, gives false. */
  lemma BoolSpellings(current: Value, raw: string)
    requires current.Bool?
    ensures Coerce(current, raw) == Some(Bool(true))
      <==> Ascii.Lower(raw) == "true" || Ascii.Lower(raw) == "1" || Ascii.Lower(raw) == "yes"
    ensures Coerce(current, raw) == Some(Bool(false))
      <==> !(Ascii.Lower(raw) == "true" || Ascii.Lower(raw) == "1" || Ascii.Lower(raw) == "yes")
  {
  }

  /** Writing an integer in decimal and coercing it back gives the integer. */
  lemma IntRoundTrip(current: Value, n: int)
    requires current.Int?
    ensures Coerce(current, Numerals.IntToString(n)) == Some(Int(n))
  {
    Numerals.ParseIntRoundTrip(n);
  }

  /** Any letter in the new value of an int makes `int()` fail. */
  lemma IntRejectsLetters(current: Value, raw: string, k: nat)
    requires current.Int?
    requires k < |raw| && Ascii.IsLetter(raw[k])
    ensures Coerce(current, raw) == None
  {
    Numerals.ParseIntRejectsLetter(raw, k);
  }

  // ---- The command ----

  /** The reply `handle_config` sends to the channel. */
  datatype Reply =
    | Usage
    | Updated(key: string, value: string)
    | Invalid(key: string)
    | NotFound(key: string)

  /** The text of a reply (main.py:138, 155, 157, 159). */
  function ReplyText(r: Reply): string {
    match r
    case Usage => "Usage: `!config <key> <value>`"
    case Updated(key, value) => "Updated `" + key + "` to `" + value + "`."
    case Invalid(key) => "Invalid value for `" + key + "`."
    case NotFound(key) => "Key `" + key + "` not found in config."
  }

  /** The four kinds of reply have texts that differ from their first
      characters on, so the channel can tell them apart. */
  lemma ReplyTextsDistinguishKinds(r1: Reply, r2: Reply)
    requires ReplyText(r1) == ReplyText(r2)
    ensures r1.Usage? == r2.Usage? && r1.Updated? == r2.Updated?
    ensures r1.Invalid? == r2.Invalid? && r1.NotFound? == r2.NotFound?
  {
    var t1, t2 := ReplyText(r1), ReplyText(r2);
    assert t1[0] == t2[0] && t1[1] == t2[1];
  }

  /** What one command does: the reply, the configuration afterwards, and
      whether `config.json` is rewritten. */
  datatype Effect = Effect(reply: Reply, config: map<string, Value>, saved: bool)

  /** The effect of `handle_config` on the configuration `config`. Only a
      successful update changes the configuration and rewrites the file; it
      changes only the value of the named key, and never adds a key. */
  function Configure(config: map<string, Value>, content: string): (e: Effect)
    ensures e.saved <==> e.reply.Updated?
    ensures !e.saved ==> e.config == config
    ensures e.config.Keys == config.Keys
    ensures e.reply.Updated? ==>
      (|Split(content)| == 3
       && e.reply.key == Split(content)[1] && e.reply.value == Split(content)[2]
       && e.reply.key in config
       && Coerce(config[e.reply.key], e.reply.value).Some?
       && e.config[e.reply.key] == Coerce(config[e.reply.key], e.reply.value).value
       && forall k :: k in config && k != e.reply.key ==> e.config[k] == config[k])
  {
    var parts := Split(content);
    if |parts| < 3 then Effect(Usage, config, false)
    else
      var key, value := parts[1], parts[2];
      if key !in config then Effect(NotFound(key), config, false)
      else match Coerce(config[key], value)
        case None => Effect(Invalid(key), config, false)
        case Some(v) => Effect(Updated(key, value), config[key := v], true)
  }

  /** The replies of `handle_config`, each with exactly its cause: the usage
      text for fewer than three parts, "not found" for an unknown key, and
      "invalid" only for an int key whose value `int()` rejects — the bool
      branch and the string branch never fail. */
  lemma ConfigureReplies(config: map<string, Value>, content: string)
    ensures Configure(config, content).reply == Usage <==> |Split(content)| < 3
    ensures Configure(config, content).reply.NotFound?
      <==> |Split(content)| == 3 && Split(content)[1] !in config
    ensures Configure(config, content).reply.Invalid?
      <==> |Split(content)| == 3 && Split(content)[1] in config
           && config[Split(content)[1]].Int?
           && Numerals.ParseInt(Split(content)[2], 10).None?
  {
  }

  /** A successful update stores the coerced value, of the type the key
      already had: a bool stays a bool, an int an int, and anything else
      becomes a string. */
  lemma ConfigureKeepsType(config: map<string, Value>, content: string)
    requires Configure(config, content).reply.Updated?
    ensures var key := Split(content)[1];
      var after := Configure(config, content).config[key];
      (config[key].Bool? ==> after.Bool?)
      && (config[key].Int? ==> after.Int?)
      && (!config[key].Bool? && !config[key].Int? ==> after == Str(Split(content)[2]))
  {
  }

  /** `!config <key> <n>` on an int key sets it to `n`. */
  lemma ConfigureInt(config: map<string, Value>, command: string, key: string, n: int)
    requires IsWord(command) && IsWord(key)
    requires key in config && config[key].Int?
    ensures Configure(config, command + " " + key + " " + Numerals.IntToString(n))
      == Effect(Updated(key, Numerals.IntToString(n)), config[key := Int(n)], true)
  {
    var value := Numerals.IntToString(n);
    Numerals.IntToStringEnds(n);
    SplitJoin(command, key, value);
    IntRoundTrip(config[key], n);
  }

  /** The configuration of the running bot and the contents of
      `config.json`. */
  class ConfigStore {
    var config: map<string, Value>
    var file: map<string, Value>

    /** `config = json.load(f)` (main.py:11-12) */
    constructor (loaded: map<string, Value>)
      ensures config == loaded && file == loaded
    {
      config := loaded;
      file := loaded;
    }

    /** `handle_config(message)` for the text `content`: updates the
        configuration in place, rewrites the file after a successful update
        only, and returns the reply sent to the channel. */
    method HandleConfig(content: string) returns (reply: Reply)
      modifies this
      ensures reply == Configure(old(config), content).reply
      ensures config == Configure(old(config), content).config
      ensures file == if reply.Updated? then config else old(file)
    {
      var parts := Split(content);
      if |parts| < 3 {
        reply := Usage;
        return;
      }
      var key, value := parts[1], parts[2];
      if key in config {
        match config[key] {
          case Bool(_) =>
            config := config[key := Bool(Ascii.Lower(value) in TrueWords)];
          case Int(_) =>
            var n := Numerals.ParseInt(value, 10);
            if n.None? {
              reply := Invalid(key);
              return;
            }
            config := config[key := Int(n.value)];
          case _ =>
            config := config[key := Str(value)];
        }
        file := config;
        reply := Updated(key, value);
      } else {
        reply := NotFound(key);
      }
    }
  }
}
