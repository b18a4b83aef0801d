/** The SQS tag handler (`Aws::Service::SQS`): trace-context extraction from the
    `message_attributes` parameter of a `receive_message` request, injection into the
    parameters of sent messages, and the queue tags derived from the request. */
module AwsSqs {
  import opened Wrappers
  import opened RubyString
  import opened AwsBase

  /** The data type of every attribute SQS injects. */
  const SqsDataType: string := "String"

  /** The parentage style under which `receive_message` requests extract a trace context. */
  const DistributedParentage: string := "distributed"

  /** `SQS#before_span(config, context)`: the `_datadog` attribute handed on to continue
      the sender's trace, or `None` when nothing is extracted. */
  function BeforeSpan(config: Config, p: Params, op: Operation): (r: Option<MessageAttribute>)
    ensures r.Some? <==>
              && config.propagation
              && config.parentageStyle == DistributedParentage
              && op == ReceiveMessage
              && p.messageAttributes.Some?
              && PropagationKey in p.messageAttributes.value
    ensures r.Some? ==> r.value == AttributesOf(p)[PropagationKey]
  {
    if config.propagation && config.parentageStyle == DistributedParentage && op == ReceiveMessage
    then ExtractPropagation(p)
    else None
  }

  /** `SQS#process(config, trace, context)`: with propagation on, `send_message` and
      `send_message_batch` (in both batch settings) inject as `'String'`; every other
      operation, and every operation with propagation off, leaves the request alone. */
  function Process(config: Config, p: Params, op: Operation, inj: Injection): (r: Params)
    ensures !config.propagation ==> r == p
    ensures !(op == SendMessage || op == SendMessageBatch) ==> r == p
    // only the attribute map can change; the two send operations inject exactly once
    ensures r == p.(messageAttributes := r.messageAttributes)
    ensures config.propagation && (op == SendMessage || op == SendMessageBatch) ==>
              r == InjectPropagation(p, inj, SqsDataType)
    ensures config.propagation && (op == SendMessage || op == SendMessageBatch) ==>
              AttributesOf(r) == if |AttributesOf(p)| < MessageAttributesLimit && inj.injected
                                 then AttributesOf(p)[PropagationKey := PropagationAttribute(inj, SqsDataType)]
                                 else AttributesOf(p)
  {
    if !config.propagation then p
    else
      match op
      case SendMessage => InjectPropagation(p, inj, SqsDataType)
      case SendMessageBatch =>
        if config.batchPropagation then InjectPropagation(p, inj, SqsDataType)
        else InjectPropagation(p, inj, SqsDataType)
      case _ => p
  }

  /** The `batch_propagation` setting makes no difference to what SQS injects. */
  lemma ProcessIgnoresBatchSetting(config: Config, p: Params, op: Operation, inj: Injection)
    ensures Process(config.(batchPropagation := true), p, op, inj)
            == Process(config.(batchPropagation := false), p, op, inj)
  {
  }

  /** `before_span` for a `receive_message` request, with propagation on and distributed
      parentage, on params holding what `process` wrote for `send_message` (room left and
      injection succeeded) extracts exactly that attribute. Nothing in the handlers carries
      a sent message's attributes into a later request; this relates the two functions on
      the same params. */
  lemma ProcessThenBeforeSpan(sender: Config, receiver: Config, p: Params, inj: Injection)
    requires sender.propagation && |AttributesOf(p)| < MessageAttributesLimit && inj.injected
    requires receiver.propagation && receiver.parentageStyle == DistributedParentage
    ensures BeforeSpan(receiver, Process(sender, p, SendMessage, inj), ReceiveMessage)
            == Some(PropagationAttribute(inj, SqsDataType))
  {
  }

  /** `SQS#add_tags(span, params)`: with a `queue_url`, the `/`-fields at index 3 and 4
      are the account and the queue name (`nil` when missing), overriding `queue_name`;
      otherwise the queue name is `queue_name` (possibly `nil`) and the account tag is
      not touched. */
  function AddTags(span: SpanTags, p: Params): (r: SpanTags)
    ensures QueueName in r
    ensures p.queueUrl.None? ==> r[QueueName] == p.queueName
    ensures p.queueUrl.Some? ==>
              && AwsAccount in r
              && r[AwsAccount] == At(Split(p.queueUrl.value, '/'), 3)
              && r[QueueName] == At(Split(p.queueUrl.value, '/'), 4)
    ensures forall tag :: tag in span && tag != QueueName && (p.queueUrl.Some? ==> tag != AwsAccount)
              ==> tag in r && r[tag] == span[tag]
    ensures r.Keys == span.Keys + {QueueName} + (if p.queueUrl.Some? then {AwsAccount} else {})
  {
    match p.queueUrl
    case Some(url) =>
      var parts := Split(url, '/');
      span[AwsAccount := At(parts, 3)][QueueName := At(parts, 4)]
    case None => span[QueueName := p.queueName]
  }

  /** For a queue URL `<scheme>//<host>/<account>/<queue>` whose parts hold no `/` and
      whose queue is non-empty, the tags are exactly that account and queue, whatever
      `queue_name` says. */
  lemma AddTagsFromQueueUrl(span: SpanTags, p: Params, scheme: string, host: string, account: string, queue: string)
    requires '/' !in scheme && '/' !in host && '/' !in account && '/' !in queue && queue != ""
    requires p.queueUrl == Some(scheme + "//" + host + "/" + account + "/" + queue)
    ensures AddTags(span, p)[AwsAccount] == Some(account)
    ensures AddTags(span, p)[QueueName] == Some(queue)
  {
    var tail := ["", host, account, queue];
    assert Join(tail, '/') == "/" + host + "/" + account + "/" + queue by {
      assert tail[1..] == [host, account, queue];
      assert tail[1..][1..] == [account, queue];
      assert tail[1..][1..][1..] == [queue];
      assert Join([account, queue], '/') == account + "/" + queue;
      assert Join([host, account, queue], '/') == host + "/" + (account + "/" + queue);
      assert Join(tail, '/') == "" + "/" + (host + "/" + (account + "/" + queue));
    }
    assert p.queueUrl.value == scheme + ['/'] + Join(tail, '/');
    SplitWithTail(scheme, tail, '/');
    FieldsOfSepFree(scheme, '/');
    var parts := Split(p.queueUrl.value, '/');
    assert parts == [scheme, "", host, account, queue];
  }

  /** A queue URL of the usual shape,
      `https://sqs.us-east-1.amazonaws.com/123456789012/MyQueue` (written as its parts):
      account `123456789012`, queue `MyQueue`. */
  lemma AddTagsExample(span: SpanTags)
    ensures var p := Params(None, None,
                            Some("https:" + "//" + "sqs.us-east-1.amazonaws.com" + "/" + "123456789012" + "/" + "MyQueue"),
                            Some("OtherQueue"), None);
            AddTags(span, p)[AwsAccount] == Some("123456789012")
            && AddTags(span, p)[QueueName] == Some("MyQueue")
  {
    var scheme, host, account, queue := "https:", "sqs.us-east-1.amazonaws.com", "123456789012", "MyQueue";
    assert '/' !in scheme && '/' !in host && '/' !in account && '/' !in queue;
    var p := Params(None, None, Some(scheme + "//" + host + "/" + account + "/" + queue), Some("OtherQueue"), None);
    AddTagsFromQueueUrl(span, p, scheme, host, account, queue);
  }
}
