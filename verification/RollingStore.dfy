/** RollingMailStore used by one session at a time: the last hundred messages. */
module RollingStore {
  import opened Text
  import opened MailMessages

  const CAPACITY := 100

  class RollingMailStore {
    var receivedMail: seq<MailMessageImpl>

    ghost function Contents(): (r: seq<Message>)
      reads this, receivedMail
      ensures |r| == |receivedMail|
    {
      seq(|receivedMail|, i requires 0 <= i < |receivedMail| reads this, receivedMail => receivedMail[i].Contents())
    }

    constructor ()
      ensures receivedMail == []
    {
      receivedMail := [];
    }

    method GetEmailCount() returns (count: nat)
      ensures count == |receivedMail|
    {
      count := |receivedMail|;
    }

    method AddMessage(message: MailMessageImpl)
      requires |receivedMail| <= CAPACITY
      modifies this
      ensures receivedMail == LastN(old(receivedMail) + [message], CAPACITY)
      ensures Contents() == LastN(old(Contents()) + [old(message.Contents())], CAPACITY)
    {
      receivedMail := receivedMail + [message];
      var count := GetEmailCount();
      if count > CAPACITY {
        receivedMail := receivedMail[1..];
      }
    }

    method GetMessages() returns (messages: seq<MailMessageImpl>)
      ensures messages == receivedMail
    {
      messages := receivedMail;
    }

    method ClearMessages()
      modifies this
      ensures receivedMail == []
    {
      receivedMail := [];
    }
  }

}
