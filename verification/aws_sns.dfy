/** The SNS tag handler (`Aws::Service::SNS`): trace-context injection into published
    messages and the topic tags derived from the request. */
module AwsSns {
  import opened Wrappers
  import opened RubyString
  import opened AwsBase

  /** The data type of every attribute SNS injects. */
  const SnsDataType: string := "Binary"

  /** `SNS#process(config, trace, context)`. With propagation on, the source injects once
      unconditionally and then a second time for `publish` and `publish_batch` (in both
      batch settings), always as `'Binary'`. */
  function Process(config: Config, p: Params, op: Operation, inj: Injection): (r: Params)
    ensures !config.propagation ==> r == p
    ensures r == p.(messageAttributes := r.messageAttributes)
  {
    var first := if config.propagation then InjectPropagation(p, inj, SnsDataType) else p;
    if !config.propagation then first
    else
      match op
      case Publish => InjectPropagation(first, inj, SnsDataType)
      case PublishBatch =>
        if config.batchPropagation then InjectPropagation(first, inj, SnsDataType)
        else InjectPropagation(first, inj, SnsDataType)
      case _ => first
  }

  /** With propagation on, every SNS operation ends up exactly as after one `'Binary'`
      injection: the repeated injection for publishes changes nothing further. */
  lemma ProcessInjectsOnce(config: Config, p: Params, op: Operation, inj: Injection)
    requires config.propagation
    ensures Process(config, p, op, inj) == InjectPropagation(p, inj, SnsDataType)
  {
    InjectPropagationIdempotent(p, inj, SnsDataType);
  }

  /** The attributes SNS leaves behind: the old ones plus a `'Binary'` `_datadog` entry
      exactly when propagation is on, the limit leaves room and injection succeeds. */
  lemma ProcessWritesBinary(config: Config, p: Params, op: Operation, inj: Injection)
    ensures AttributesOf(Process(config, p, op, inj))
            == if config.propagation && |AttributesOf(p)| < MessageAttributesLimit && inj.injected
               then AttributesOf(p)[PropagationKey := PropagationAttribute(inj, SnsDataType)]
               else AttributesOf(p)
  {
    if config.propagation {
      ProcessInjectsOnce(config, p, op, inj);
    }
  }

  /** A request that already carries the maximum number of attributes, or whose trace
      cannot be injected, leaves `process` with its parameters exactly as they were. */
  lemma ProcessWithoutRoomKeepsParams(config: Config, p: Params, op: Operation, inj: Injection)
    requires p.messageAttributes.Some?
    requires |AttributesOf(p)| >= MessageAttributesLimit || !inj.injected
    ensures Process(config, p, op, inj) == p
  {
    if config.propagation {
      ProcessInjectsOnce(config, p, op, inj);
      InjectWithoutWriteKeepsParams(p, inj, SnsDataType);
    }
  }

  /** `SNS#add_tags(span, params)`: with a `topic_arn`, its last `:`-field is the topic
      name and the one before it the account; otherwise the topic name is `name`
      (possibly `nil`) and the account tag is not touched. */
  function AddTags(span: SpanTags, p: Params): (r: SpanTags)
    ensures TopicName in r
    ensures p.topicArn.None? ==> r[TopicName] == p.name
    ensures p.topicArn.Some? ==>
              && AwsAccount in r
              && r[TopicName] == At(Split(p.topicArn.value, ':'), -1)
              && r[AwsAccount] == At(Split(p.topicArn.value, ':'), -2)
    ensures forall tag :: tag in span && tag != TopicName && (p.topicArn.Some? ==> tag != AwsAccount)
              ==> tag in r && r[tag] == span[tag]
    ensures r.Keys == span.Keys + {TopicName} + (if p.topicArn.Some? then {AwsAccount} else {})
  {
    match p.topicArn
    case Some(arn) =>
      var parts := Split(arn, ':');
      span[AwsAccount := At(parts, -2)][TopicName := At(parts, -1)]
    case None => span[TopicName := p.name]
  }

  /** For an ARN `<prefix>:<account>:<topic>` (neither of the last two holding `:`, the
      topic non-empty), the tags are exactly that account and topic, whatever `name`. */
  lemma AddTagsFromArn(span: SpanTags, p: Params, prefix: string, account: string, topic: string)
    requires ':' !in account && ':' !in topic && topic != ""
    requires p.topicArn == Some(prefix + ":" + account + ":" + topic)
    ensures AddTags(span, p)[AwsAccount] == Some(account)
    ensures AddTags(span, p)[TopicName] == Some(topic)
  {
    var tail := [account, topic];
    assert Join(tail, ':') == account + ":" + topic;
    assert p.topicArn.value == prefix + [':'] + Join(tail, ':');
    SplitWithTail(prefix, tail, ':');
    var parts := Split(p.topicArn.value, ':');
    assert parts[|parts| - 1] == topic && parts[|parts| - 2] == account;
  }

  /** The ARN of the handler's own test, `arn:aws:sns:us-west-2:123456789012:my-topic-name`
      (written as its parts joined by `:`): account `123456789012`, topic `my-topic-name`. */
  lemma AddTagsExample(span: SpanTags)
    ensures var p := Params(Some("arn:aws:sns:us-west-2" + ":" + "123456789012" + ":" + "my-topic-name"),
                            None, None, None, None);
            AddTags(span, p)[AwsAccount] == Some("123456789012")
            && AddTags(span, p)[TopicName] == Some("my-topic-name")
  {
    var account, topic := "123456789012", "my-topic-name";
    assert ':' !in account && ':' !in topic;
    var p := Params(Some("arn:aws:sns:us-west-2" + ":" + account + ":" + topic), None, None, None, None);
    AddTagsFromArn(span, p, "arn:aws:sns:us-west-2", account, topic);
  }
}
