/** Sender names: the nick of any host text, and the fragments of a full host. */
module Hosts {
  import opened Seqs
  import opened Text

  /** The text before the first `!` or `@`; the whole text when there is neither. */
  function Nick(host: string): (nick: string)
    ensures nick <= host
    ensures '!' !in nick && '@' !in nick
    ensures |nick| < |host| ==> host[|nick|] == '!' || host[|nick|] == '@'
  {
    if host == "" || host[0] == '!' || host[0] == '@' then "" else [host[0]] + Nick(host[1..])
  }

  /** The key a user is stored under. */
  function Key(host: string): string {
    ToLower(Nick(host))
  }

  lemma {:induction false} NickOfFull(nick: string, rest: string)
    requires '!' !in nick && '@' !in nick && (rest != "" ==> rest[0] == '!' || rest[0] == '@')
    ensures Nick(nick + rest) == nick
  {
    if nick == "" {
      assert nick + rest == rest;
    } else {
      assert (nick + rest)[1..] == nick[1..] + rest;
      NickOfFull(nick[1..], rest);
    }
  }

  /** `\w` under `(?i)`, which also folds in U+017F and U+212A, and the range 0x5B to 0x60. */
  predicate IsNickChar(c: char) {
    'a' <= c <= 'z' || 'A' <= c <= 'Z' || '0' <= c <= '9' || '[' <= c <= '`' || c == '\U{17F}' || c == '\U{212A}'
  }

  /** Neither NUL nor `\s`. */
  predicate IsHostChar(c: char) {
    c != '\0' && c != '\t' && c != '\n' && c != '\U{C}' && c != '\r' && c != ' '
  }

  datatype HostParts = HostParts(nick: string, user: string, hostname: string) {
    predicate WellFormed() {
      && nick != "" && (forall c :: c in nick ==> IsNickChar(c))
      && user != "" && (forall c :: c in user ==> IsHostChar(c) && c != '@')
      && hostname != "" && forall c :: c in hostname ==> IsHostChar(c)
    }

    function Text(): string {
      nick + ['!'] + user + ['@'] + hostname
    }
  }

  const NO_PARTS := HostParts("", "", "")

  /** The only cut the anchored pattern allows: at the first `!`, then at the first `@` after it. */
  function CutHost(host: string): HostParts {
    var i := IndexOf(host, '!');
    var rest := if i < |host| then host[i + 1..] else "";
    var j := IndexOf(rest, '@');
    HostParts(host[..i], rest[..j], if j < |rest| then rest[j + 1..] else "")
  }

  /** Three empty fragments when the pattern does not match. */
  function SplitHost(host: string): HostParts {
    if CutHost(host).WellFormed() then CutHost(host) else NO_PARTS
  }

  lemma HostText(nick: string, excl: string, user: string, at: string, hostname: string)
    ensures nick + excl + (user + at + hostname) == nick + excl + user + at + hostname
    ensures nick + (excl + user + at + hostname) == nick + excl + user + at + hostname
  {
    Associate(nick + excl, user + at, hostname);
    Associate(nick + excl, user, at);
    Associate(nick, excl + user + at, hostname);
    Associate(nick, excl + user, at);
    Associate(nick, excl, user);
  }

  lemma Cut(s: string, c: char)
    requires c in s
    ensures s == s[..IndexOf(s, c)] + [c] + s[IndexOf(s, c) + 1..]
  {
  }

  lemma CutBack(host: string)
    requires CutHost(host).user != "" && CutHost(host).hostname != ""
    ensures CutHost(host).Text() == host
  {
    var parts := CutHost(host);
    Cut(host, '!');
    Cut(host[|parts.nick| + 1..], '@');
    HostText(parts.nick, ['!'], parts.user, ['@'], parts.hostname);
  }

  lemma CutForth(nick: string, user: string, hostname: string)
    requires '!' !in nick && '@' !in user
    ensures CutHost(HostParts(nick, user, hostname).Text()) == HostParts(nick, user, hostname)
  {
    var host := HostParts(nick, user, hostname).Text();
    var tail := user + (['@'] + hostname);
    assert host == nick + (['!'] + tail);
    IndexAfter(nick, ['!'] + tail, '!');
    assert host[|nick| + 1..] == tail;
    IndexAfter(user, ['@'] + hostname, '@');
    assert tail[|user| + 1..] == hostname;
  }

  lemma TextNick(parts: HostParts)
    requires parts.WellFormed()
    ensures Nick(parts.Text()) == parts.nick
  {
    assert '!' !in parts.nick && '@' !in parts.nick;
    HostText(parts.nick, ['!'], parts.user, ['@'], parts.hostname);
    NickOfFull(parts.nick, ['!'] + parts.user + ['@'] + parts.hostname);
  }

  /** A text splits into well-formed parts exactly when it is those parts with `!` and `@` between;
      any other text splits into nothing. */
  lemma SplitExactly(host: string, parts: HostParts)
    ensures parts.WellFormed() ==> (SplitHost(host) == parts <==> host == parts.Text())
    ensures SplitHost(host) == NO_PARTS || (SplitHost(host).WellFormed() && host == SplitHost(host).Text())
  {
    if CutHost(host).WellFormed() {
      CutBack(host);
    }
    if parts.WellFormed() {
      assert '!' !in parts.nick && '@' !in parts.user;
      CutForth(parts.nick, parts.user, parts.hostname);
    }
  }

  /** The nick of a text that splits is the first fragment. */
  lemma SplitNick(host: string)
    ensures SplitHost(host) != NO_PARTS ==> Nick(host) == SplitHost(host).nick
  {
    var parts := SplitHost(host);
    if parts != NO_PARTS {
      CutBack(host);
      TextNick(parts);
    }
  }

  /** A nick and a host: both delimiters occur, in any order. */
  predicate IsFull(host: string) {
    '!' in host && '@' in host
  }

  /** A server name: a period, and no full host. */
  predicate IsServer(host: string) {
    '.' in host && !IsFull(host)
  }
}
