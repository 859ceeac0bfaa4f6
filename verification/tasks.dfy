/** The queue's entries (Task and AttachmentType in main.go). */
module Tasks {
  import opened GoText

  /** The kind of file attached to a task. */
  datatype AttachmentType = NoAttachment | Image | Audio

  /**
   * A queue entry. `createdAt` stands for Go's time.Time, which the queue
   * never inspects; the other fields are Go strings.
   */
  datatype Task = Task(
    id: Bytes,
    text: Bytes,
    createdAt: int,
    attachmentPath: Bytes,
    attachmentType: AttachmentType)
}
