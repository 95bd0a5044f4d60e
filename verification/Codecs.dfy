/** What the doctor's fixer asks of the codec of a file's format
    (internal/configfile/configfile.go: Codec), and how much of it a codec keeps: where a
    write lands, what it leaves alone, and when it is lost. */
module Codecs {
  import opened IniCodec

  type Path = string
  type Key = seq<string>

  /** What a file says of a key; the value is what a reader is shown of it. */
  datatype Reading = Unreadable | Absent | Present(value: Value)

  /** What setting a key comes to: an edit, nothing to do, a construct the codec will not
      write into, or an error. */
  datatype Writing = Writes(content: string) | Unchanged | Refuses | Fails

  datatype Codec = Codec(
    get: (Path, string, Key) -> Reading,
    set_: (Path, string, Key, Literal) -> Writing)

  /** Keys one of which is inside the other. */
  predicate Related(a: Key, b: Key) {
    a <= b || b <= a
  }

  /** The writes a codec promises something about, told apart by the text before them:
      known is all of them; a write that lands states its key and leaves every other key
      alone; one that is swallowed states nothing; and one that settles makes the key hold
      the value. The keys it speaks of are the proper ones, each the one spelling of a
      place the format has. */
  datatype Promise = Promise(
    proper: Key -> bool,
    known: (Path, string, Key, Literal) -> bool,
    lands: (Path, string, Key, Literal) -> bool,
    swallowed: (Path, string, Key, Literal) -> bool,
    settles: (Path, string, Key, Literal) -> bool)

  ghost predicate Told(g: Promise) {
    && (forall p, text, k, want :: g.lands(p, text, k, want) ==> g.known(p, text, k, want) && !g.swallowed(p, text, k, want))
    && (forall p, text, k, want :: g.swallowed(p, text, k, want) ==> g.known(p, text, k, want))
  }

  /** After a write the key is stated, unless the write was swallowed. */
  ghost predicate StatesUnlessSwallowed(c: Codec, g: Promise) {
    forall p, text, k, want :: c.set_(p, text, k, want).Writes? && g.known(p, text, k, want) ==>
      (c.get(p, c.set_(p, text, k, want).content, k) == Absent <==> g.swallowed(p, text, k, want))
  }

  /** After a write that lands the key holds the value exactly when the write settles. */
  ghost predicate SetGet(c: Codec, g: Promise) {
    forall p, text, k, want :: c.set_(p, text, k, want).Writes? && g.lands(p, text, k, want) ==>
      var now := c.get(p, c.set_(p, text, k, want).content, k);
      (now.Present? && Holds(now.value, want) <==> g.settles(p, text, k, want))
  }

  /** After a write that lands every key apart from its own reads as it did, and one that
      was stated still is. */
  ghost predicate Frame(c: Codec, g: Promise) {
    forall p, text, k, want, other :: c.set_(p, text, k, want).Writes? && g.lands(p, text, k, want) ==>
      var now := c.get(p, c.set_(p, text, k, want).content, other);
      && (!Related(k, other) && g.proper(other) ==> now == c.get(p, text, other))
      && (c.get(p, text, other) != Absent ==> now != Absent)
  }

  /** A write that is swallowed neither states a key nor takes one away. */
  ghost predicate Harmless(c: Codec, g: Promise) {
    forall p, text, k, want, other :: c.set_(p, text, k, want).Writes? && g.swallowed(p, text, k, want) ==>
      (c.get(p, c.set_(p, text, k, want).content, other) == Absent <==> c.get(p, text, other) == Absent)
  }

  /** A write leaves no more to write for any key apart from its own: one that lands for
      every such key, one that is swallowed for those that are absent. */
  ghost predicate Idle(c: Codec, g: Promise) {
    forall p, text, k, want, other, wanted ::
      c.set_(p, text, k, want).Writes? && (g.lands(p, text, k, want) || (g.swallowed(p, text, k, want) && c.get(p, text, other) == Absent))
      && !Related(k, other) && g.proper(other) && !c.set_(p, text, other, wanted).Writes? ==>
      !c.set_(p, c.set_(p, text, k, want).content, other, wanted).Writes?
  }

  /** An empty text the codec writes into states no key. */
  ghost predicate StartsEmpty(c: Codec, g: Promise) {
    forall p, k, want, other :: c.set_(p, "", k, want).Writes? && g.known(p, "", k, want) && g.proper(other) ==> c.get(p, "", other) == Absent
  }

  ghost predicate Lawful(c: Codec, g: Promise) {
    Told(g) && StatesUnlessSwallowed(c, g) && SetGet(c, g) && Frame(c, g) && Harmless(c, g) && Idle(c, g) && StartsEmpty(c, g)
  }

  // ---- one write ----

  /** A write that lands or is swallowed. */
  predicate Quiet(g: Promise, p: Path, text: string, k: Key, want: Literal) {
    g.lands(p, text, k, want) || g.swallowed(p, text, k, want)
  }

  lemma StatesAt(c: Codec, g: Promise, p: Path, text: string, k: Key, want: Literal)
    requires Lawful(c, g) && c.set_(p, text, k, want).Writes? && g.known(p, text, k, want)
    ensures c.get(p, c.set_(p, text, k, want).content, k) == Absent <==> g.swallowed(p, text, k, want)
  {
    hide Related;
  }

  lemma LandedAt(c: Codec, g: Promise, p: Path, text: string, k: Key, want: Literal, other: Key)
    requires Lawful(c, g) && c.set_(p, text, k, want).Writes? && g.lands(p, text, k, want)
    ensures g.known(p, text, k, want) && !g.swallowed(p, text, k, want)
    ensures
      var now := c.get(p, c.set_(p, text, k, want).content, other);
      && (!Related(k, other) && g.proper(other) ==> now == c.get(p, text, other))
      && (c.get(p, text, other) != Absent ==> now != Absent)
  {
    hide Related, Holds, SetGet, StatesUnlessSwallowed, Harmless, Idle, StartsEmpty;
  }

  lemma SwallowedAt(c: Codec, g: Promise, p: Path, text: string, k: Key, want: Literal, other: Key)
    requires Lawful(c, g) && c.set_(p, text, k, want).Writes? && g.swallowed(p, text, k, want)
    ensures g.known(p, text, k, want)
    ensures c.get(p, c.set_(p, text, k, want).content, other) == Absent <==> c.get(p, text, other) == Absent
  {
    hide Related, Holds, SetGet, StatesUnlessSwallowed, Frame, Idle, StartsEmpty;
  }

  /** What a write that lands or is swallowed does to another key, or to its own. */
  lemma QuietAt(c: Codec, g: Promise, p: Path, text: string, k: Key, want: Literal, other: Key)
    requires Lawful(c, g) && c.set_(p, text, k, want).Writes? && Quiet(g, p, text, k, want)
    ensures g.known(p, text, k, want)
    ensures
      var now := c.get(p, c.set_(p, text, k, want).content, other);
      && (c.get(p, text, other) != Absent ==> now != Absent)
      && ((!Related(k, other) && g.proper(other)) || g.swallowed(p, text, k, want) ==> (now == Absent <==> c.get(p, text, other) == Absent))
  {
    hide Related, Lawful;
    if g.lands(p, text, k, want) {
      LandedAt(c, g, p, text, k, want, other);
    } else {
      SwallowedAt(c, g, p, text, k, want, other);
    }
  }

  /** A write that lands: its own key. */
  lemma LandsAt(c: Codec, g: Promise, p: Path, text: string, k: Key, want: Literal)
    requires Lawful(c, g) && c.set_(p, text, k, want).Writes? && g.lands(p, text, k, want)
    ensures
      var now := c.get(p, c.set_(p, text, k, want).content, k);
      (now.Present? && Holds(now.value, want) <==> g.settles(p, text, k, want))
  {
    hide Related, Holds, Told, StatesUnlessSwallowed, Frame, Harmless, Idle, StartsEmpty;
  }

  /** A write that lands or is swallowed leaves nothing more to write for an absent key
      apart from its own. */
  lemma IdleAt(c: Codec, g: Promise, p: Path, text: string, k: Key, want: Literal, other: Key, wanted: Literal)
    requires Lawful(c, g) && c.set_(p, text, k, want).Writes? && Quiet(g, p, text, k, want)
    requires !Related(k, other) && g.proper(other) && c.get(p, text, other) == Absent && !c.set_(p, text, other, wanted).Writes?
    ensures !c.set_(p, c.set_(p, text, k, want).content, other, wanted).Writes?
  {
    hide Related, Holds, Told, StatesUnlessSwallowed, SetGet, Frame, Harmless, StartsEmpty;
  }

  lemma EmptyAt(c: Codec, g: Promise, p: Path, k: Key, want: Literal, other: Key)
    requires Lawful(c, g) && c.set_(p, "", k, want).Writes? && Quiet(g, p, "", k, want) && g.proper(other)
    ensures c.get(p, "", other) == Absent
  {
    hide Related, Holds, StatesUnlessSwallowed, SetGet, Frame, Harmless, Idle;
  }
}
