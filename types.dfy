/** The records and enumerations of src/types/index.ts that the resource
    catalog is built from. */
module ResourceTypes {
  import opened Wrappers

  /** The document formats the site knows; `File` stands for any other. */
  datatype DocumentType =
    | Pdf | Doc | Docx | Txt | Xls | Xlsx | Ppt | Pptx | Zip | Rar
    | Jpg | Jpeg | Png | Gif | Mp4 | Mp3 | File

  /** The icon shown beside a document. */
  datatype DocumentIconName =
    | FileText | FileArchive | FileSpreadsheet | FileImage | FileVideo | FileAudio | FileType | File

  /** The string literal each document type is written as. */
  function TypeName(t: DocumentType): string
  {
    match t
    case Pdf => "pdf"
    case Doc => "doc"
    case Docx => "docx"
    case Txt => "txt"
    case Xls => "xls"
    case Xlsx => "xlsx"
    case Ppt => "ppt"
    case Pptx => "pptx"
    case Zip => "zip"
    case Rar => "rar"
    case Jpg => "jpg"
    case Jpeg => "jpeg"
    case Png => "png"
    case Gif => "gif"
    case Mp4 => "mp4"
    case Mp3 => "mp3"
    case File => "file"
  }

  /** One grade-and-subject entry of the resources index. */
  datatype ResourceCategory = ResourceCategory(gradesub: string, title: string, description: string, slug: string)

  /** A topic within a grade and subject. */
  datatype TopicCategory = TopicCategory(id: string, name: string, description: string, slug: string, gradeSubject: string)

  /** A video; the optional fields are `None` when absent. */
  datatype VideoResource = VideoResource(
    id: string,
    title: string,
    description: Option<string>,
    thumbnailUrl: string,
    embedUrl: string,
    duration: Option<string>,
    uploadDate: Option<string>)

  /** A downloadable document. */
  datatype DocumentResource = DocumentResource(
    id: string,
    title: string,
    docType: DocumentType,
    icon: DocumentIconName,
    downloadUrl: string,
    uploadDate: string,
    fileSize: Option<string>)

  /** The materials page of one grade and subject. `topic` and `gradeSubject`
      are `None` where the builder leaves them undefined. */
  datatype MaterialContent = MaterialContent(
    title: string,
    description: string,
    topic: Option<string>,
    gradeSubject: Option<string>,
    videos: seq<VideoResource>,
    documents: seq<DocumentResource>)
}
