/** The HTML page that wraps the converted parts: a fixed document head with its style sheet before
    them and the closing tags after them. */
module Template {

  /** Everything before the joined parts: the doctype, the head with its style sheet, and the opening
      body tag followed by a newline and four spaces. */
  const Head: string := @"
<!DOCTYPE html>
<html lang=""zh-CN"">
<head>
    <meta charset=""UTF-8"">
    <meta name=""viewport"" content=""width=device-width, initial-scale=1.0"">
    <title>MyResty Framework</title>
    <style>
        @font-face {
            font-family: 'NotoSansCJK';
            src: url('/usr/share/fonts/opentype/noto/NotoSansCJK-Regular.ttc') format('truetype');
        }

        body {
            font-family: 'NotoSansCJK', 'Noto Serif CJK SC', 'AR PL UMing TW MBE', sans-serif;
            font-size: 12pt;
            line-height: 1.6;
            margin: 2cm;
            color: #333;
        }

        h1 {
            font-size: 24pt;
            color: #1a1a1a;
            border-bottom: 2px solid #007bff;
            padding-bottom: 10px;
            margin-bottom: 30px;
        }

        h2 {
            font-size: 18pt;
            color: #2c3e50;
            margin-top: 25px;
            margin-bottom: 15px;
        }

        h3 {
            font-size: 14pt;
            color: #34495e;
            margin-top: 20px;
            margin-bottom: 10px;
        }

        h4 {
            font-size: 12pt;
            color: #555;
            margin-top: 15px;
            margin-bottom: 8px;
        }

        p {
            margin: 10px 0;
            text-align: justify;
        }

        ul {
            margin: 10px 0;
            padding-left: 30px;
        }

        li {
            margin: 5px 0;
        }

        pre {
            background-color: #f5f5f5;
            padding: 10px;
            border-radius: 5px;
            overflow-x: auto;
            font-family: 'Courier New', monospace;
            font-size: 10pt;
        }

        code {
            background-color: #f5f5f5;
            padding: 2px 5px;
            border-radius: 3px;
            font-family: 'Courier New', monospace;
        }

        hr {
            border: none;
            border-top: 1px solid #ddd;
            margin: 20px 0;
        }

        .content {
            max-width: 100%;
        }

        @page {
            size: A4;
            margin: 2cm;
        }
    </style>
</head>
<body>
    "

  /** Everything after the joined parts. */
  const Tail: string := @"
</body>
</html>
"
}
