/** The part of the Homebox API records that the export pipeline reads
    (homebox_client/models.go). Prices, timestamps, labels and the other
    fields of an item are not used by the naming or the orchestration. */
module Models {

  /** `DocumentOut`: only the title is used, to name the attachment file. */
  datatype Document = Document(title: string)

  /** `Attachment`: server-assigned identifier and its document. */
  datatype Attachment = Attachment(id: string, document: Document)

  /** `Item`: identifier, display name and ordered attachments. */
  datatype Item = Item(id: string, name: string, attachments: seq<Attachment>)
}
