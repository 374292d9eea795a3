/** `on_message` (main.py:89-93): every message in a direct-message channel
    starts a verification session; elsewhere, a message from a whitelisted
    author that starts with `!config` is a configuration command; anything
    else is ignored. */
module Router {
  import Ascii
  import Session
  import Config

  const ConfigPrefix: string := "!config"

  predicate StartsWith(s: string, prefix: string) {
    |prefix| <= |s| && s[..|prefix|] == prefix
  }

  datatype Handler = ToDm | ToConfig | Ignore

  /** Which handler a message reaches. */
  function Route(isDm: bool, authorId: int, content: string, whitelist: seq<int>): Handler {
    if isDm then ToDm
    else if authorId in whitelist && StartsWith(content, ConfigPrefix) then ToConfig
    else Ignore
  }

  /** A message outside direct messages reaches the configuration handler
      exactly when a whitelisted author wrote `!config` followed by anything
      at all: the test is a prefix test, so `!configure` qualifies and a
      leading blank does not. A direct message always starts a session. */
  lemma RouteToConfigIff(isDm: bool, authorId: int, rest: string, whitelist: seq<int>)
    ensures Route(isDm, authorId, ConfigPrefix + rest, whitelist) == ToConfig
      <==> !isDm && authorId in whitelist
    ensures isDm ==> Route(isDm, authorId, ConfigPrefix + rest, whitelist) == ToDm
  {
    assert (ConfigPrefix + rest)[..|ConfigPrefix|] == ConfigPrefix;
  }

  /** Every message that reaches the configuration handler is `!config`
      followed by some text, sent by a whitelisted author outside direct
      messages. */
  lemma RoutedIsCommand(isDm: bool, authorId: int, content: string, whitelist: seq<int>)
    requires Route(isDm, authorId, content, whitelist) == ToConfig
    ensures !isDm && authorId in whitelist
    ensures content == ConfigPrefix + content[|ConfigPrefix|..]
  {
    assert content == content[..|ConfigPrefix|] + content[|ConfigPrefix|..];
  }

  lemma {:induction false} SkipWordPasses(s: string, i: nat, m: nat)
    requires i <= m <= |s|
    requires forall k :: i <= k < m ==> !Ascii.IsSpace(s[k])
    ensures Config.SkipWord(s, i) >= m
    decreases m - i
  {
    if i < m {
      SkipWordPasses(s, i + 1, m);
    }
  }

  /** A routed command's first part is the `!config...` word it starts with. */
  lemma RoutedCommandWord(content: string)
    requires StartsWith(content, ConfigPrefix)
    ensures |Config.Split(content)| >= 1
    ensures StartsWith(Config.Split(content)[0], ConfigPrefix)
  {
    var n := |ConfigPrefix|;
    assert content[0] == '!';
    assert forall k :: 0 <= k < n ==> content[k] == ConfigPrefix[k];
    SkipWordPasses(content, 0, n);
    var w := Config.SkipWord(content, 0);
    assert Config.Split(content)[0] == content[0..w];
    assert content[0..w][..n] == content[..n];
  }

  /** A message as the handlers see it. */
  datatype Message = Message(isDm: bool, authorId: int, author: Session.Account, content: string)

  /** What handling a message did. */
  datatype Action =
    | DmSession(trace: seq<Session.Event>)
    | ConfigReply(reply: Config.Reply, text: string)
    | Nothing

  /** `on_message(message)`. The screening policy is the copy taken at
      start-up, so configuration commands do not change it. */
  method OnMessage(store: Config.ConfigStore, whitelist: seq<int>, policy: Session.Policy, now: int,
                   challenges: seq<string>, outcomes: seq<Session.Outcome>, m: Message)
    returns (action: Action)
    requires Session.Attempts(policy) <= |challenges| && Session.Attempts(policy) <= |outcomes|
    modifies store
    ensures m.isDm ==> action == DmSession(Session.DmTrace(policy, m.author, now, challenges, outcomes))
    ensures Route(m.isDm, m.authorId, m.content, whitelist) == ToConfig ==>
      action.ConfigReply?
      && action.reply == Config.Configure(old(store.config), m.content).reply
      && action.text == Config.ReplyText(action.reply)
      && store.config == Config.Configure(old(store.config), m.content).config
      && store.file == (if action.reply.Updated? then store.config else old(store.file))
    ensures Route(m.isDm, m.authorId, m.content, whitelist) != ToConfig ==>
      store.config == old(store.config) && store.file == old(store.file)
    ensures Route(m.isDm, m.authorId, m.content, whitelist) == Ignore ==> action == Nothing
  {
    if m.isDm {
      var trace := Session.HandleDm(policy, m.author, now, challenges, outcomes);
      action := DmSession(trace);
    } else if m.authorId in whitelist && StartsWith(m.content, ConfigPrefix) {
      var reply := store.HandleConfig(m.content);
      action := ConfigReply(reply, Config.ReplyText(reply));
    } else {
      action := Nothing;
    }
  }
}
