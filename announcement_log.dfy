/**
 * The rolling announcement log. The plugin keeps the most recent announcements,
 * newest first, at most twenty of them, and does not log a message that repeats
 * the one announced just before it. This behaviour is known from the plugin's
 * tests; its implementation is not part of this model.
 */
module AnnouncementLog {
  import Markup

  const Capacity: nat := 20

  /** The first `n` elements, or all of them when there are fewer. */
  function Take(s: seq<string>, n: nat): (r: seq<string>)
    ensures |r| == if |s| <= n then |s| else n
    ensures forall i | 0 <= i < |r| :: r[i] == s[i]
  {
    if |s| <= n then s else s[..n]
  }

  function Reverse(s: seq<string>): (r: seq<string>)
    ensures |r| == |s|
    ensures forall i | 0 <= i < |s| :: r[i] == s[|s| - 1 - i]
  {
    if s == [] then [] else [s[|s| - 1]] + Reverse(s[..|s| - 1])
  }

  /** The announcements with each run of consecutive repeats reduced to one. */
  function Collapse(texts: seq<string>): (r: seq<string>)
    ensures |r| <= |texts|
    ensures texts != [] ==> r != [] && r[|r| - 1] == texts[|texts| - 1]
  {
    if texts == [] then []
    else
      var prefix := texts[..|texts| - 1];
      var t := texts[|texts| - 1];
      if prefix != [] && prefix[|prefix| - 1] == t then Collapse(prefix) else Collapse(prefix) + [t]
  }

  /** The entries after one more announcement: a repeat of the newest entry is dropped, otherwise it goes in front and the oldest entry beyond capacity falls off. */
  function Recorded(entries: seq<string>, text: string): seq<string> {
    if entries != [] && entries[0] == text then entries else Take([text] + entries, Capacity)
  }

  /** The log after a whole sequence of announcements, starting empty. */
  function LogOf(texts: seq<string>): seq<string> {
    if texts == [] then [] else Recorded(LogOf(texts[..|texts| - 1]), texts[|texts| - 1])
  }

  lemma TakeCons(t: string, s: seq<string>, n: nat)
    requires n >= 1
    ensures Take([t] + Take(s, n), n) == Take([t] + s, n)
  {
  }

  /**
   * The log is the latest twenty of the collapsed announcements, newest first:
   * a message is logged unless it repeats the one just before it, and only the
   * oldest entries are ever evicted.
   */
  lemma {:induction false} LogIsRecentHistory(texts: seq<string>)
    ensures LogOf(texts) == Take(Reverse(Collapse(texts)), Capacity)
  {
    if texts != [] {
      var prefix := texts[..|texts| - 1];
      var t := texts[|texts| - 1];
      LogIsRecentHistory(prefix);
      var before := Take(Reverse(Collapse(prefix)), Capacity);
      if prefix != [] && prefix[|prefix| - 1] == t {
        assert before[0] == t;
      } else {
        assert Reverse(Collapse(prefix) + [t]) == [t] + Reverse(Collapse(prefix));
        assert before != [] ==> before[0] == prefix[|prefix| - 1];
        TakeCons(t, Reverse(Collapse(prefix)), Capacity);
      }
    }
  }

  /** The log never holds more than twenty entries. */
  lemma LogBounded(texts: seq<string>)
    ensures |LogOf(texts)| <= Capacity
  {
    LogIsRecentHistory(texts);
  }

  /** The message just announced is always at the head of the log. */
  lemma NewestFirst(texts: seq<string>)
    requires texts != []
    ensures LogOf(texts) != [] && LogOf(texts)[0] == texts[|texts| - 1]
  {
    LogIsRecentHistory(texts);
  }

  /** One announcement: the log holds exactly that message. */
  lemma SingleAnnouncement(message: string)
    ensures LogOf([message]) == [message]
  {
    assert [message][..0] == [];
  }

  /** A message announced twice in a row is logged once: A, A, B gives B, A. */
  lemma RepeatIsLoggedOnce(a: string, b: string)
    requires a != b
    ensures LogOf([a, a, b]) == [b, a]
  {
    assert [a, a, b][..2] == [a, a];
    assert [a, a][..1] == [a];
    SingleAnnouncement(a);
  }

  /** Without consecutive repeats nothing is collapsed. */
  lemma {:induction false} CollapseDistinct(texts: seq<string>)
    requires forall i | 0 <= i < |texts| - 1 :: texts[i] != texts[i + 1]
    ensures Collapse(texts) == texts
  {
    if texts != [] {
      CollapseDistinct(texts[..|texts| - 1]);
    }
  }

  /**
   * More than twenty messages without repeats leave exactly twenty entries: the
   * latest twenty, newest first.
   */
  lemma RollingTruncation(texts: seq<string>)
    requires |texts| >= Capacity
    requires forall i | 0 <= i < |texts| - 1 :: texts[i] != texts[i + 1]
    ensures |LogOf(texts)| == Capacity
    ensures forall i | 0 <= i < Capacity :: LogOf(texts)[i] == texts[|texts| - 1 - i]
  {
    LogIsRecentHistory(texts);
    CollapseDistinct(texts);
  }

  /** The scroll-text pages announced by the rolling-log test: "This is page 0" to "This is page 21". */
  function Pages(n: nat): (r: seq<string>)
    ensures |r| == n
  {
    seq(n, (i: int) requires 0 <= i => "This is page " + Markup.NatToString(i))
  }

  /** Twenty-two pages leave twenty entries, the newest being "This is page 21". */
  lemma TwentyTwoPages()
    ensures |LogOf(Pages(22))| == 20
    ensures LogOf(Pages(22))[0] == "This is page 21"
  {
    var pages := Pages(22);
    forall i | 0 <= i < |pages| - 1 ensures pages[i] != pages[i + 1] {
      var prefix := "This is page ";
      if pages[i] == pages[i + 1] {
        assert pages[i][|prefix|..] == Markup.NatToString(i);
        assert pages[i + 1][|prefix|..] == Markup.NatToString(i + 1);
        Markup.PrintedInjective(i, i + 1);
      }
    }
    RollingTruncation(pages);
    assert Markup.NatToString(21) == "21";
  }

  /**
   * The log as the plugin keeps it. `history` is every message recorded so far,
   * which only the proof uses.
   */
  class Log {
    var entries: seq<string>
    ghost var history: seq<string>

    ghost predicate Valid()
      reads this
    {
      entries == LogOf(history)
    }

    constructor ()
      ensures Valid() && entries == [] && history == []
    {
      entries := [];
      history := [];
    }

    /** Record one announcement. */
    method Record(text: string)
      requires Valid()
      modifies this
      ensures Valid() && history == old(history) + [text]
      ensures entries == Recorded(old(entries), text)
      ensures |entries| <= Capacity && entries[0] == text
    {
      history := history + [text];
      assert history[..|history| - 1] == old(history);
      LogBounded(history);
      if entries != [] && entries[0] == text {
        return;
      }
      entries := [text] + entries;
      if |entries| > Capacity {
        entries := entries[..Capacity];
      }
    }
  }
}
