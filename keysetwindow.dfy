/**
  * `KeySetWindow::checkInput`: the dialog where the opponent's public key is
  * typed in. The text is stripped of everything but hexadecimal digits, and
  * exactly 64 digits (32 key bytes) are accepted.
  */
module KeySetWindow {
  import opened Errors
  import opened Filtering
  import opened Hex
  import opened Stirlitz

  /** Hexadecimal digits in an accepted key. */
  const KeyLength: nat := 64

  /** The text of the error dialog shown when the key is refused. */
  const IncorrectKeyMessage: string := "Incorrect key!"

  /** The hexadecimal digits of `text`, in order. */
  function HexOnly(text: string): (r: string)
    ensures AllHexDigits(r) && |r| <= |text|
  {
    Filter(text, IsHexDigit)
  }

  /** Reading one more character of the text keeps it when it is a digit. */
  lemma HexOnlyStep(text: string, i: nat)
    requires i < |text|
    ensures HexOnly(text[..i + 1]) == HexOnly(text[..i]) + (if IsHexDigit(text[i]) then [text[i]] else [])
  {
    assert text[..i + 1] == text[..i] + [text[i]];
    FilterAppend(text[..i], [text[i]], IsHexDigit);
  }

  /**
    * `res.erase(std::remove_if(res.begin(), res.end(), ...), res.end())` on a
    * copy of the text: the digits are moved to the front in order, and what
    * is left behind them is cut off.
    */
  method KeepHexDigits(text: string) returns (res: string)
    ensures res == HexOnly(text)
  {
    var a := new char[|text|](k requires 0 <= k < |text| => text[k]);
    var j := 0;
    var i := 0;
    while i < a.Length
      invariant 0 <= j <= i <= a.Length
      invariant a[..j] == HexOnly(text[..i])
      invariant forall k :: i <= k < a.Length ==> a[k] == text[k]
    {
      HexOnlyStep(text, i);
      if IsHexDigit(a[i]) {
        ghost var kept := a[..j];
        a[j] := a[i];
        assert a[..j + 1] == kept + [text[i]];
        j := j + 1;
      }
      i := i + 1;
    }
    assert text[..i] == text;
    res := a[..j];
  }

  /**
    * The window: the text of its key field, whether it is still open, the
    * keys it has emitted with `signalKey`, and the error dialogs it has shown.
    */
  class KeySetWindow {
    var text: string
    var open: bool
    var emitted: seq<string>
    var dialogs: seq<string>

    /** `createWindow`, with the key field already holding what the user
      * typed or pasted: open, nothing emitted or shown. The editing of the
      * field is not modelled; its text is an input. */
    constructor(text: string)
      ensures this.text == text && open && emitted == [] && dialogs == []
    {
      this.text := text;
      open := true;
      emitted := [];
      dialogs := [];
    }

    /**
      * `checkInput`: when the text has exactly 64 hexadecimal digits, emit
      * them and close; otherwise show the "Incorrect key!" dialog and stay as
      * the window was. The key field itself is never changed.
      */
    method CheckInput()
      modifies this
      ensures text == old(text)
      ensures |HexOnly(text)| == KeyLength ==>
                emitted == old(emitted) + [HexOnly(text)] && !open && dialogs == old(dialogs)
      ensures |HexOnly(text)| != KeyLength ==>
                dialogs == old(dialogs) + [IncorrectKeyMessage] && open == old(open) && emitted == old(emitted)
    {
      var res := KeepHexDigits(text);
      if |res| != KeyLength {
        dialogs := dialogs + [IncorrectKeyMessage];
        return;
      }
      emitted := emitted + [res];
      open := false;
    }
  }

  /** What survives the filter is exactly the hexadecimal digits of the text. */
  lemma HexOnlyMembership(text: string, c: char)
    ensures c in HexOnly(text) <==> c in text && IsHexDigit(c)
  {
    FilterMembership(text, IsHexDigit, c);
  }

  /** The filter keeps order: the digits of a concatenation are the digits of
    * its first part followed by those of its second. */
  lemma HexOnlyInOrder(a: string, b: string)
    ensures HexOnly(a + b) == HexOnly(a) + HexOnly(b)
  {
    FilterAppend(a, b, IsHexDigit);
  }

  /** Filtering an already filtered key changes nothing. */
  lemma HexOnlyIdempotent(text: string)
    ensures HexOnly(HexOnly(text)) == HexOnly(text)
  {
    FilterIdempotent(text, IsHexDigit);
  }

  /** Text made only of hexadecimal digits is kept whole. */
  lemma HexOnlyKeepsDigits(text: string)
    requires AllHexDigits(text)
    ensures HexOnly(text) == text
  {
    FilterKeepsAll(text, IsHexDigit);
  }

  /** An accepted key is 64 hexadecimal digits, which `fromHex` turns into the
    * 32 bytes that `generatePublicKeyExp` takes. */
  lemma AcceptedKeyBuildsPublicKey(text: string)
    requires |HexOnly(text)| == KeyLength
    ensures AllHexDigits(HexOnly(text))
    ensures |HexDecode(HexOnly(text))| == 32
    ensures GeneratePublicKeyExp(HexDecode(HexOnly(text))).Ok?
  {
    var key := HexOnly(text);
    assert forall i :: 0 <= i < |key| ==> IsHexDigit(key[i]);
  }

  /** The window's caller decodes an emitted key and builds the opponent's
    * public key from it; for an accepted key neither step fails. */
  method AcceptKey(text: string) returns (r: Result<SExps.SExp, string>)
    requires |HexOnly(text)| == KeyLength
    ensures r.Ok? && r == GeneratePublicKeyExp(HexDecode(HexOnly(text)))
  {
    AcceptedKeyBuildsPublicKey(text);
    var key := KeepHexDigits(text);
    var raw := FromHex(key);
    r := GeneratePublicKeyExp(raw.value);
  }
}
