/** The words of the fastboot protocol, and what each of them makes of a call. */
module DriverWords {
  import opened Bytes
  import opened AsciiText
  import opened HexText
  import opened DriverLog

  /** The packet was received and starts with the word. */
  predicate Says(e: Io, word: string) {
    e.Got? && e.packet.Some? && Ascii(word) <= e.packet.value
  }

  predicate SaysNothing(e: Io) {
    && e.Got? && e.packet.Some?
    && !Says(e, "INFO") && !Says(e, "TEXT") && !Says(e, "OKAY") && !Says(e, "FAIL") && !Says(e, "DATA")
  }

  lemma Spelled()
    ensures INFO == Ascii("INFO") && TEXT == Ascii("TEXT") && OKAY == Ascii("OKAY") && FAIL == Ascii("FAIL")
    ensures DATA == Ascii("DATA")
  {
    FourBytes("INFO");
    FourBytes("TEXT");
    FourBytes("OKAY");
    FourBytes("FAIL");
    FourBytes("DATA");
  }

  /** A word of four bytes starts a packet exactly when it starts the C string in it. */
  lemma WordKept(packet: seq<byte>, word: seq<byte>)
    requires |word| == 4 && 0 !in word
    ensures word <= packet <==> word <= Terminated(packet)
    ensures word <= packet ==> Terminated(packet)[4..] == Terminated(packet[4..])
  {
    var s := Terminated(packet);
    if word <= packet {
      assert forall k :: 0 <= k < 4 ==> packet[k] == word[k] && word[k] in word;
      OneCString(packet[4..], s[4..]);
    }
  }

  /** A C string in a packet is determined by where the first NUL is. */
  lemma {:induction false} OneCString(packet: seq<byte>, s: seq<byte>)
    requires s <= packet && 0 !in s && (s == packet || packet[|s|] == 0)
    ensures s == Terminated(packet)
  {
    var t := Terminated(packet);
    assert forall k :: 0 <= k < |s| ==> packet[k] == s[k] && s[k] in s;
    assert forall k :: 0 <= k < |t| ==> packet[k] == t[k] && t[k] in t;
  }

  /** The status of a packet is the word it starts with, and its text all that follows up to a NUL. */
  lemma StatusExactly(packet: seq<byte>)
    ensures StatusOf(packet).Info? <==> Ascii("INFO") <= packet
    ensures StatusOf(packet).Text? <==> Ascii("TEXT") <= packet
    ensures StatusOf(packet).Okay? <==> Ascii("OKAY") <= packet
    ensures StatusOf(packet).Fail? <==> Ascii("FAIL") <= packet
    ensures StatusOf(packet).Data? <==> Ascii("DATA") <= packet
    ensures !StatusOf(packet).Unknown? ==> |packet| >= 4 && StatusOf(packet).text == Terminated(packet[4..])
  {
    Spelled();
    WordKept(packet, INFO);
    WordKept(packet, TEXT);
    WordKept(packet, OKAY);
    WordKept(packet, FAIL);
    WordKept(packet, DATA);
    hide Terminated, Ascii;
  }

  /** A text sent behind one of the five words arrives as it was sent. */
  lemma WordsArrive(text: seq<byte>)
    requires 0 !in text
    ensures StatusOf(Ascii("INFO") + text) == Info(text) && StatusOf(Ascii("TEXT") + text) == Text(text)
    ensures StatusOf(Ascii("OKAY") + text) == Okay(text) && StatusOf(Ascii("FAIL") + text) == Fail(text)
    ensures StatusOf(Ascii("DATA") + text) == Data(text)
  {
    OneCString(text, text);
    WordArrives("INFO", text);
    WordArrives("TEXT", text);
    WordArrives("OKAY", text);
    WordArrives("FAIL", text);
    WordArrives("DATA", text);
    hide Terminated, Ascii, StatusOf;
  }

  lemma WordArrives(word: string, text: seq<byte>)
    requires |word| == 4
    ensures Ascii(word) <= Ascii(word) + text && (Ascii(word) + text)[4..] == text
    ensures var s := StatusOf(Ascii(word) + text);
            && (s.Info? <==> Ascii("INFO") <= Ascii(word) + text) && (s.Text? <==> Ascii("TEXT") <= Ascii(word) + text)
            && (s.Okay? <==> Ascii("OKAY") <= Ascii(word) + text) && (s.Fail? <==> Ascii("FAIL") <= Ascii(word) + text)
            && (s.Data? <==> Ascii("DATA") <= Ascii(word) + text)
            && (!s.Unknown? ==> s.text == Terminated(text))
  {
    hide Ascii, StatusOf, Terminated;
    StatusExactly(Ascii(word) + text);
  }

  // ----- Groups of packets

  /** A group of packets that ends in the word that goes with the outcome, with nothing but INFO and TEXT before. */
  predicate Decided(group: seq<Io>, ret: RetCode) {
    && (forall k :: 0 <= k < |group| ==> group[k].Got? && group[k].length == 256)
    && (forall k :: 0 <= k < |group| - 1 ==> Says(group[k], "INFO") || Says(group[k], "TEXT"))
    && if group == [] then ret == Timeout
       else
         var e := group[|group| - 1];
         match ret
         case Success => Says(e, "OKAY") || Says(e, "DATA")
         case DeviceFail => Says(e, "FAIL")
         case IoError => e.packet == None
         case BadDevResp => SaysNothing(e)
         case Timeout => Says(e, "INFO") || Says(e, "TEXT")
         case BadArg => false
  }

  lemma OneExactly(e: Io)
    requires e.Got?
    ensures Chatter(e) <==> Says(e, "INFO") || Says(e, "TEXT")
    ensures !Chatter(e) ==>
              && (Verdict(e) == Success <==> Says(e, "OKAY") || Says(e, "DATA"))
              && (Verdict(e) == DeviceFail <==> Says(e, "FAIL"))
              && (Verdict(e) == IoError <==> e.packet == None)
              && (Verdict(e) == BadDevResp <==> SaysNothing(e))
              && Verdict(e) != BadArg && Verdict(e) != Timeout
    ensures Chatter(e) ==>
              !Says(e, "OKAY") && !Says(e, "DATA") && !Says(e, "FAIL") && e.packet != None && !SaysNothing(e)
  {
    hide Ascii, StatusOf;
    if e.packet.Some? {
      StatusExactly(e.packet.value);
    }
  }

  /** The outcome of a call is what the bytes of its last packet say. */
  lemma DecidedExactly(group: seq<Io>, ret: RetCode)
    ensures Answered(group, ret) <==> Decided(group, ret)
  {
    hide Says, SaysNothing, Chatter, Verdict;
    forall k | 0 <= k < |group| && group[k].Got?
      ensures Chatter(group[k]) <==> Says(group[k], "INFO") || Says(group[k], "TEXT")
    {
      OneExactly(group[k]);
    }
    if group != [] && group[|group| - 1].Got? {
      OneExactly(group[|group| - 1]);
    }
  }

  /** The response is the text behind OKAY, FAIL or DATA, and a size comes with DATA only. */
  lemma ReplyExactly(group: seq<Io>, ret: RetCode)
    requires Decided(group, ret)
    ensures ret == Success || ret == DeviceFail ==>
              |group[|group| - 1].packet.value| >= 4 && Reply(group) == Terminated(group[|group| - 1].packet.value[4..])
    ensures ret != Success && ret != DeviceFail ==> Reply(group) == []
    ensures DataSize(group) != 0 ==> ret == Success && Says(group[|group| - 1], "DATA")
    ensures ret == Success && Says(group[|group| - 1], "DATA") ==>
              DataSize(group) == SizeOf(Terminated(group[|group| - 1].packet.value[4..]))
  {
    hide Ascii, StatusOf, Terminated, SizeOf;
    if group != [] {
      var e := group[|group| - 1];
      OneExactly(e);
      if e.packet.Some? {
        StatusExactly(e.packet.value);
      }
    }
  }

  /** The INFO payloads are the texts behind INFO, packet by packet. */
  lemma InfosExactly(log: seq<Io>, e: Io)
    ensures Infos(log + [e]) == Infos(log) + if Says(e, "INFO") then [Terminated(e.packet.value[4..])] else []
  {
    hide Ascii, StatusOf, Terminated;
    assert (log + [e])[..|log|] == log;
    if e.Got? && e.packet.Some? {
      StatusExactly(e.packet.value);
    }
  }
}
