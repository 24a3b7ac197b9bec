/** The ten keycap reaction markers, the marker-to-index mapping the reaction
    handlers use, and the rendering of an option list as marker-labelled lines. */
module Markers {
  import opened Wrappers
  import opened Strings

  /** The fixed marker sequence: keycaps one to nine, then the keycap ten. */
  const Emojis: seq<string> := [
    "1\U{FE0F}\U{20E3}", "2\U{FE0F}\U{20E3}", "3\U{FE0F}\U{20E3}", "4\U{FE0F}\U{20E3}",
    "5\U{FE0F}\U{20E3}", "6\U{FE0F}\U{20E3}", "7\U{FE0F}\U{20E3}", "8\U{FE0F}\U{20E3}",
    "9\U{FE0F}\U{20E3}", "\U{1F51F}"
  ]

  /** `s.indexOf(x)`: the first position holding `x`, or -1. */
  function IndexOf<T(==)>(s: seq<T>, x: T): (r: int)
    ensures r == -1 <==> x !in s
    ensures 0 <= r ==> r < |s| && s[r] == x && x !in s[..r]
    ensures -1 <= r
  {
    if s == [] then -1
    else if s[0] == x then 0
    else
      var k := IndexOf(s[1..], x);
      if k == -1 then -1
      else
        assert s[..k + 1] == [s[0]] + s[1..][..k];
        k + 1
  }

  /** The reaction filter's test `emojis.includes(name)`. */
  predicate IsMarker(name: string)
  {
    name in Emojis
  }

  /** `emojis.indexOf(name)` for a name the reaction filter let through. */
  method MarkerPosition(name: string) returns (i: nat)
    requires IsMarker(name)
    ensures i < |Emojis| && Emojis[i] == name && name !in Emojis[..i]
  {
    i := IndexOf(Emojis, name);
  }

  /** No two markers are the same string. */
  lemma MarkersDistinct()
    ensures forall i, j :: 0 <= i < j < |Emojis| ==> Emojis[i] != Emojis[j]
  {
    forall i, j | 0 <= i < j < |Emojis| ensures Emojis[i] != Emojis[j] {
      MarkersDiffer(i, j);
    }
  }

  /** Two markers at different positions differ in their first character. */
  lemma MarkersDiffer(i: nat, j: nat)
    requires i < j < |Emojis|
    ensures Emojis[i] != Emojis[j]
  {
    assert Emojis[i][0] != Emojis[j][0];
  }

  /** No marker contains a newline. */
  lemma MarkersWithoutNewline()
    ensures forall k :: 0 <= k < |Emojis| ==> '\n' !in Emojis[k]
  {
    forall k | 0 <= k < |Emojis| ensures '\n' !in Emojis[k] {
      var e := Emojis[k];
      assert e[0] != '\n';
      assert forall c :: 1 <= c < |e| ==> e[c] in {'\U{FE0F}', '\U{20E3}'};
    }
  }

  /** Looking up the i-th marker gives back i, for every one of the ten. */
  lemma MarkerIndexRoundTrip(i: nat)
    requires i < |Emojis|
    ensures IndexOf(Emojis, Emojis[i]) == i
  {
    MarkersDistinct();
  }

  /** `emojis[i]` inside a template string: the marker, or the text
      "undefined" past the tenth position. */
  function Label(i: nat): (l: string)
    ensures '\n' !in l
  {
    if i < |Emojis| then
      MarkersWithoutNewline();
      Emojis[i]
    else "undefined"
  }

  /** The rendered line of each option: its label, a colon and the option text. */
  function Lines(options: seq<string>): (lines: seq<string>)
  {
    seq(|options|, i requires 0 <= i < |options| => Label(i) + ": " + options[i])
  }

  /** The option list shown with a poll: the lines joined with newlines. */
  function Description(options: seq<string>): string
  {
    Join(Lines(options), "\n")
  }

  /** The markers reacted to the poll message, one per option in order;
      `None` stands for `emojis[i]` being undefined past the tenth option. */
  function Reactions(n: nat): (rs: seq<Option<string>>)
  {
    seq(n, i requires 0 <= i < n => if i < |Emojis| then Some(Emojis[i]) else None)
  }

  /** A marker never contains a newline, so rendered lines do not either when
      the options do not. */
  lemma LineHasNoNewline(options: seq<string>, i: nat)
    requires i < |options|
    requires '\n' !in options[i]
    ensures '\n' !in Lines(options)[i]
  {
    var l := Label(i);
    assert Lines(options)[i] == l + ": " + options[i];
  }

  /** Splitting the description on newlines recovers one line per option,
      option `i` labelled with marker `i`, for options without newlines. */
  lemma DescriptionLines(options: seq<string>)
    requires |options| >= 1
    requires forall k :: 0 <= k < |options| ==> '\n' !in options[k]
    ensures Split(Description(options), '\n') == Lines(options)
    ensures forall i :: 0 <= i < |options| ==> Lines(options)[i] == Label(i) + ": " + options[i]
  {
    forall i | 0 <= i < |options| ensures '\n' !in Lines(options)[i] {
      LineHasNoNewline(options, i);
    }
    SplitJoin(Lines(options), '\n');
  }

  /** The marker reacted for option i is recorded as index i, while a marker
      past the last option passes the filter and is recorded as an index
      that is not an option's. */
  lemma ReactionIndex(n: nat, j: nat)
    requires j < |Emojis|
    ensures IsMarker(Emojis[j]) && IndexOf(Emojis, Emojis[j]) == j
    ensures j < n ==> Reactions(n)[j] == Some(Emojis[j])
    ensures n <= j ==> Some(Emojis[j]) !in Reactions(n)
  {
    MarkerIndexRoundTrip(j);
    if n <= j {
      forall k | 0 <= k < n ensures Reactions(n)[k] != Some(Emojis[j]) {
        assert Reactions(n)[k] == Some(Emojis[k]);
        MarkersDiffer(k, j);
      }
    }
  }
}
