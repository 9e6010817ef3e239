/**
  The request records of the Amazon S3 SDK that the request factory fills in,
  reduced to the properties the factory sets. The upload stream and the
  expiry time are opaque to the factory and appear as type parameters.
*/
module S3Requests {

  /** A reference that the SDK leaves null until it is set. */
  datatype Option<+T> = None | Some(value: T)

  /** `Amazon.S3.Model.Protocol`. */
  datatype Protocol = HTTP | HTTPS

  /** `Amazon.S3.Model.HttpVerb`. */
  datatype HttpVerb = GET | HEAD | PUT | DELETE

  /** `Amazon.S3.Model.ServerSideEncryptionMethod`. */
  datatype ServerSideEncryptionMethod = NoEncryption | AES256

  /** `int.MaxValue`, the largest 32-bit signed integer. */
  const IntMaxValue: int := 0x7FFF_FFFF

  datatype GetObjectMetadataRequest = GetObjectMetadataRequest(bucketName: string, key: string)

  datatype GetObjectRequest = GetObjectRequest(bucketName: string, key: string, timeout: int)

  datatype PutObjectRequest<Stream> = PutObjectRequest(
    bucketName: string,
    inputStream: Stream,
    key: string,
    generateMD5Digest: bool,
    timeout: int,
    serverSideEncryptionMethod: ServerSideEncryptionMethod)

  datatype ListObjectsRequest = ListObjectsRequest(bucketName: string, prefix: string, delimiter: string)

  datatype DeleteObjectRequest = DeleteObjectRequest(bucketName: string, key: string)

  datatype CopyObjectRequest = CopyObjectRequest(
    sourceBucket: string,
    sourceKey: string,
    destinationBucket: string,
    destinationKey: string,
    timeout: int)

  datatype ResponseHeaderOverrides = ResponseHeaderOverrides(contentDisposition: string)

  datatype GetPreSignedUrlRequest<DateTime> = GetPreSignedUrlRequest(
    key: string,
    protocol: Protocol,
    bucketName: string,
    expires: DateTime,
    verb: HttpVerb,
    responseHeaderOverrides: Option<ResponseHeaderOverrides>)
}
