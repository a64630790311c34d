/** The three SNS calls `index` makes, on an in-memory backend that keeps
    its topic ARNs and a log of every call made to it. */
module Sns {

  /** The published message `{'default': json.dumps(body)}`: the payload,
      kept opaque, wrapped under the `default` key. */
  datatype Message = DefaultEnvelope(body: string)

  datatype Call =
    | ListTopics
    | CreateTopic(name: string)
    | Publish(targetArn: string, subject: string, message: Message, messageStructure: string)

  /** The topic list after creating a topic whose ARN is `arn`: creation is
      idempotent, so an ARN already present is not listed twice. */
  function Registered(topics: seq<string>, arn: string): (r: seq<string>)
    ensures arn in r
    ensures forall t :: t in r <==> t in topics || t == arn
    ensures |topics| <= |r| <= |topics| + 1 && r[..|topics|] == topics
  {
    if arn in topics then topics else topics + [arn]
  }

  class SnsClient {
    /** The ARNs `list_topics` returns, in order. */
    var topics: seq<string>
    /** Every call made so far, oldest first. */
    var log: seq<Call>
    /** The ARN the backend gives a topic created under a name. */
    const arnFor: string -> string

    constructor (topics: seq<string>, arnFor: string -> string)
      ensures this.topics == topics && this.arnFor == arnFor && log == []
    {
      this.topics := topics;
      this.arnFor := arnFor;
      log := [];
    }

    /** `list_topics()['Topics']`, as the ARNs alone. */
    method ListTopicArns() returns (arns: seq<string>)
      modifies this`log
      ensures arns == topics
      ensures log == old(log) + [ListTopics]
    {
      arns := topics;
      log := log + [ListTopics];
    }

    /** `create_topic(Name=name)['TopicArn']`. */
    method CreateTopicArn(name: string) returns (arn: string)
      modifies this
      ensures arn == arnFor(name)
      ensures topics == Registered(old(topics), arn)
      ensures log == old(log) + [CreateTopic(name)]
    {
      arn := arnFor(name);
      topics := Registered(topics, arn);
      log := log + [CreateTopic(name)];
    }

    /** `publish(TargetArn=..., Subject=..., Message=..., MessageStructure=...)`. */
    method PublishMessage(targetArn: string, subject: string, message: Message, messageStructure: string)
      modifies this`log
      ensures log == old(log) + [Publish(targetArn, subject, message, messageStructure)]
    {
      log := log + [Publish(targetArn, subject, message, messageStructure)];
    }
  }
}
