/**
 * The answer card of one prompt (src/components/submissions/PromptResponseCard.tsx): the
 * text state with its length guard, the colour of the character counter, and the count of
 * media uploaded from this card, passed on to the media uploader. The optional callbacks
 * are recorded as the list of values they were called with.
 */
module PromptResponseCard {
  import opened Store

  /** The props' defaults. */
  const DefaultMaxLength: int := 500
  const DefaultMaxMedia: int := 3

  /** The counter's colour class. */
  datatype CounterColor = Destructive | Amber | Muted

  /**
   * getCounterColor: destructive from maxLength characters on, amber from nine tenths of
   * maxLength on, muted below. The comparison with `maxLength * 0.9` is made exactly, as
   * 10 * count >= 9 * maxLength.
   */
  function GetCounterColor(charCount: int, maxLength: int): CounterColor
  {
    if charCount >= maxLength then Destructive
    else if 10 * charCount >= 9 * maxLength then Amber
    else Muted
  }

  /** How alarming a colour is. */
  function Severity(c: CounterColor): nat
  {
    match c
    case Muted => 0
    case Amber => 1
    case Destructive => 2
  }

  /** For a non-negative maxLength, a longer text never shows a calmer colour. */
  lemma CounterEscalates(c1: int, c2: int, maxLength: int)
    requires 0 <= maxLength && c1 <= c2
    ensures Severity(GetCounterColor(c1, maxLength)) <= Severity(GetCounterColor(c2, maxLength))
  {
  }

  /** With the default maxLength of 500 the counter turns amber at 450 characters and red at 500. */
  lemma DefaultCounter(charCount: int)
    ensures GetCounterColor(charCount, DefaultMaxLength) == Destructive <==> charCount >= 500
    ensures GetCounterColor(charCount, DefaultMaxLength) == Amber <==> 450 <= charCount < 500
    ensures GetCounterColor(charCount, DefaultMaxLength) == Muted <==> charCount < 450
  {
  }

  class Card {
    const maxLength: int
    const maxMedia: int
    /** Whether the parent passed onValueChange and onMediaUpload. */
    const notifiesValue: bool
    const notifiesMedia: bool
    var value: string
    var mediaCount: int
    /** The uploads completed from this card, in order. */
    var uploaded: seq<Id>
    /** The calls of onValueChange and onMediaUpload so far. */
    var valueCalls: seq<string>
    var mediaCalls: seq<Id>

    /** The card's invariant: mediaCount counts the completed uploads, and each went to the parent. */
    predicate Valid()
      reads this
    {
      mediaCount == |uploaded| && mediaCalls == (if notifiesMedia then uploaded else [])
    }

    /** The first render: the props with their defaults, value = initialValue (default ''), no media. */
    constructor (initialValue: string, maxLength: int, maxMedia: int, notifiesValue: bool, notifiesMedia: bool)
      ensures Valid()
      ensures this.maxLength == maxLength && this.maxMedia == maxMedia
      ensures this.notifiesValue == notifiesValue && this.notifiesMedia == notifiesMedia
      ensures value == initialValue && mediaCount == 0 && valueCalls == [] && mediaCalls == []
    {
      this.maxLength := maxLength;
      this.maxMedia := maxMedia;
      this.notifiesValue := notifiesValue;
      this.notifiesMedia := notifiesMedia;
      value := initialValue;
      mediaCount := 0;
      uploaded := [];
      valueCalls := [];
      mediaCalls := [];
    }

    /** The character counter: the length of the value. */
    function CharCount(): int
      reads this
    {
      |value|
    }

    /**
     * handleChange(newValue): a value no longer than maxLength is taken and passed to
     * onValueChange; a longer one is ignored, with no state change and no call.
     */
    method HandleChange(newValue: string)
      requires Valid()
      modifies this`value, this`valueCalls
      ensures Valid()
      ensures |newValue| <= maxLength ==> value == newValue
      ensures |newValue| <= maxLength ==> valueCalls == old(valueCalls) + (if notifiesValue then [newValue] else [])
      ensures |newValue| > maxLength ==> value == old(value) && valueCalls == old(valueCalls)
      ensures |old(value)| <= maxLength ==> |value| <= maxLength
    {
      if |newValue| <= maxLength {
        value := newValue;
        if notifiesValue {
          valueCalls := valueCalls + [newValue];
        }
      }
    }

    /** The effect on a new initialValue prop: the value is replaced, unchecked and unreported. */
    method InitialValueChanged(initialValue: string)
      requires Valid()
      modifies this`value
      ensures Valid() && value == initialValue
    {
      value := initialValue;
    }

    /** handleMediaUploadComplete(mediaId): one more medium, reported to onMediaUpload. */
    method HandleMediaUploadComplete(mediaId: Id)
      requires Valid()
      modifies this`mediaCount, this`uploaded, this`mediaCalls
      ensures Valid()
      ensures mediaCount == old(mediaCount) + 1 && uploaded == old(uploaded) + [mediaId]
      ensures mediaCalls == old(mediaCalls) + (if notifiesMedia then [mediaId] else [])
    {
      mediaCount := mediaCount + 1;
      uploaded := uploaded + [mediaId];
      if notifiesMedia {
        mediaCalls := mediaCalls + [mediaId];
      }
    }

    /** currentMediaCount as passed to the uploader: the uploads completed from this card. */
    function CurrentMediaCount(): (n: int)
      requires Valid()
      reads this
      ensures n == |uploaded| && n >= 0
    {
      mediaCount
    }
  }

  /**
   * Typing a text of the default card's length and then a longer one: the first is taken
   * and reported, the second ignored, and the counter shows red.
   */
  method TypePastLimit(initial: string, fits: string, tooLong: string) returns (card: Card)
    requires |initial| <= DefaultMaxLength && |fits| == DefaultMaxLength && |tooLong| > DefaultMaxLength
    ensures card.value == fits && card.valueCalls == [fits]
    ensures GetCounterColor(card.CharCount(), card.maxLength) == Destructive
  {
    card := new Card(initial, DefaultMaxLength, DefaultMaxMedia, true, false);
    card.HandleChange(fits);
    card.HandleChange(tooLong);
  }
}
