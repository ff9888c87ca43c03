/**
 The client-side check in the upload form's submit handler of script.js: no
 file or a file over 50 MiB stops the handler before any request is made.
 The request itself and the handling of its response are not modelled.
 */
module UploadSubmitter {
  import opened Wrappers

  const MaxSizeMB: nat := 50
  const MaxSizeBytes: nat := MaxSizeMB * 1024 * 1024

  /** What the handler decides before the network call. */
  datatype Decision = NoFile | TooLarge | Proceed

  /** The decision for the first selected file, given by its size in bytes. */
  function Precheck(file: Option<nat>): (d: Decision)
    ensures d == NoFile <==> file.None?
    ensures d == TooLarge <==> file.Some? && file.value > MaxSizeBytes
    ensures d == Proceed <==> file.Some? && file.value <= MaxSizeBytes
  {
    match file
    case None => NoFile
    case Some(size) => if size > MaxSizeBytes then TooLarge else Proceed
  }

  /** Only a `Proceed` decision reaches `fetch`. */
  predicate SendsRequest(d: Decision)
  {
    d == Proceed
  }

  /** The limit is 52428800 bytes; a file of exactly that size is sent, one byte more is not. */
  lemma LimitBoundary()
    ensures MaxSizeBytes == 52428800
    ensures SendsRequest(Precheck(Some(52428800)))
    ensures Precheck(Some(52428801)) == TooLarge
  {
  }

  /** If a file is accepted, so is every smaller one. */
  lemma AcceptedSizesShrink(size: nat, smaller: nat)
    requires SendsRequest(Precheck(Some(size)))
    requires smaller <= size
    ensures SendsRequest(Precheck(Some(smaller)))
  {
  }

  /** Decimal digits of a non-negative integer, as a template literal prints it. */
  function Decimal(n: nat): (s: string)
    ensures |s| >= 1
    ensures forall i :: 0 <= i < |s| ==> '0' <= s[i] <= '9'
    decreases n
  {
    if n < 10 then [(n + '0' as int) as char]
    else Decimal(n / 10) + [(n % 10 + '0' as int) as char]
  }

  /** The value the digits of `Decimal(n)` spell out. */
  function DigitsValue(s: string): int
    decreases |s|
  {
    if |s| == 0 then 0 else DigitsValue(s[..|s| - 1]) * 10 + (s[|s| - 1] as int - '0' as int)
  }

  lemma {:induction false} DecimalValue(n: nat)
    ensures DigitsValue(Decimal(n)) == n
    decreases n
  {
    if n >= 10 {
      DecimalValue(n / 10);
      var s := Decimal(n);
      assert s[..|s| - 1] == Decimal(n / 10);
    }
  }

  predicate Contains(s: string, part: string)
  {
    exists i :: 0 <= i <= |s| && part <= s[i..]
  }

  const NoFileMessage := "Пожалуйста, выберите файл для загрузки."
  const TooLargeMessage := "Ошибка: Файл слишком большой. Максимальный размер: " + Decimal(MaxSizeMB) + " МБ."
  const UploadingMessage := "Загрузка... Подождите."

  /** The oversize message names the limit as "50 МБ". */
  lemma TooLargeMessageNamesLimit()
    ensures Contains(TooLargeMessage, "50 МБ")
  {
    var prefix := "Ошибка: Файл слишком большой. Максимальный размер: ";
    assert Decimal(MaxSizeMB) == "50";
    assert TooLargeMessage == prefix + "50 МБ.";
    assert TooLargeMessage[|prefix|..] == "50 МБ.";
  }

  /** A text without the digit 5 cannot contain "50 МБ". */
  lemma NoFiveNoLimit(s: string)
    requires '5' !in s
    ensures !Contains(s, "50 МБ")
  {
    forall i | 0 <= i <= |s|
      ensures !("50 МБ" <= s[i..])
    {
      if i < |s| {
        assert s[i..][0] == s[i] != '5';
      }
    }
  }

  /** The text the message line shows after the checks: each decision has its
      own message, and only the oversize one names the limit. */
  function Message(d: Decision): (m: string)
    ensures Contains(m, "50 МБ") <==> d == TooLarge
    ensures d != Proceed ==> m != UploadingMessage
    ensures d == NoFile ==> m != TooLargeMessage
  {
    TooLargeMessageNamesLimit();
    NoFiveNoLimit(NoFileMessage);
    NoFiveNoLimit(UploadingMessage);
    match d
    case NoFile => NoFileMessage
    case TooLarge => TooLargeMessage
    case Proceed => UploadingMessage
  }
}
